/**
 The tree of src/vfs.rs and its two specifications: an edit of one directory of the tree, which
 also fixes the order of the children, and `View`, the flat map from component sequences to
 entries.
 */
module Tree {
  import opened Machine
  import opened Paths

  /** A node owns its children, so a tree is a value. */
  datatype VfsNode =
    | File(name: string, content: seq<byte>)
    | Directory(name: string, children: seq<VfsNode>)

  /** Proper, distinct sibling names all the way down. */
  ghost predicate WellFormed(node: VfsNode) {
    node.Directory? ==> SiblingsOk(node.children)
  }

  ghost predicate SiblingsOk(children: seq<VfsNode>) {
    && (forall c | c in children :: Name(c.name) && WellFormed(c))
    && DistinctNames(children)
  }

  predicate DistinctNames(children: seq<VfsNode>) {
    forall i, j | 0 <= i < j < |children| :: children[i].name != children[j].name
  }

  /** The first child with a name. */
  function IndexOf(children: seq<VfsNode>, name: string): (r: Option<nat>)
    ensures r.Some? ==> r.value < |children| && children[r.value].name == name
    ensures r.Some? ==> forall k | 0 <= k < r.value :: children[k].name != name
    ensures r.None? ==> forall c | c in children :: c.name != name
  {
    if children == [] then None
    else if children[0].name == name then Some(0)
    else match IndexOf(children[1..], name) {
      case None => None
      case Some(i) => Some(i + 1)
    }
  }

  lemma IndexIs(children: seq<VfsNode>, name: string, i: nat)
    requires i < |children| && children[i].name == name
    requires forall k | 0 <= k < i :: children[k].name != name
    ensures IndexOf(children, name) == Some(i)
  {
    assert children[i] in children;
  }

  lemma IndexMissing(children: seq<VfsNode>, name: string)
    requires forall c | c in children :: c.name != name
    ensures IndexOf(children, name) == None
  {
  }

  // ---- The flat map ----

  datatype Entry = Dir | Bytes(content: seq<byte>)

  function EntryOf(node: VfsNode): Entry {
    if node.Directory? then Dir else Bytes(node.content)
  }

  function Lookup(node: VfsNode, path: seq<string>): Option<Entry>
    decreases |path|
  {
    if path == [] then Some(EntryOf(node))
    else if node.File? then None
    else LookupIn(node.children, path)
  }

  function LookupIn(children: seq<VfsNode>, path: seq<string>): Option<Entry>
    requires path != []
    decreases |path|, 0
  {
    match IndexOf(children, path[0])
    case None => None
    case Some(i) => Lookup(children[i], path[1..])
  }

  type FlatMap = imap<seq<string>, Entry>

  /** The file system as a flat map from component sequences to entries. */
  ghost function View(root: VfsNode): FlatMap {
    imap p: seq<string> | Lookup(root, p).Some? :: Lookup(root, p).value
  }

  /** The entries at or below a path. */
  predicate Under(path: seq<string>, q: seq<string>) { path <= q }

  ghost function Without(m: FlatMap, path: seq<string>): FlatMap {
    imap q | q in m && !Under(path, q) :: m[q]
  }

  /** Everything above an entry is a directory. */
  lemma {:induction false} PrefixClosed(node: VfsNode, path: seq<string>, k: nat)
    requires Lookup(node, path).Some? && k < |path|
    ensures Lookup(node, path[..k]) == Some(Dir)
    decreases k
  {
    if k > 0 {
      var i := IndexOf(node.children, path[0]).value;
      PrefixClosed(node.children[i], path[1..], k - 1);
      assert path[..k][1..] == path[1..][..k - 1];
    }
  }

  /** Entries are reached through proper names only. */
  lemma {:induction false} KeysAreNames(node: VfsNode, path: seq<string>)
    requires WellFormed(node) && Lookup(node, path).Some?
    ensures forall c | c in path :: Name(c)
    decreases |path|
  {
    if path != [] {
      var i := IndexOf(node.children, path[0]).value;
      assert node.children[i] in node.children;
      KeysAreNames(node.children[i], path[1..]);
      assert path == [path[0]] + path[1..];
    }
  }

  // ---- One edit ----

  /** What an operation does to the children of the parent directory; `None` when it refuses. */
  type Edit = seq<VfsNode> -> Option<seq<VfsNode>>

  function PutFile(name: string, data: seq<byte>): Edit {
    (children: seq<VfsNode>) =>
      match IndexOf(children, name)
      case None => Some(children + [File(name, data)])
      case Some(i) =>
        if children[i].Directory? then None else Some(children[i := File(name, data)])
  }

  function AddDirectory(name: string): Edit {
    (children: seq<VfsNode>) =>
      if IndexOf(children, name).Some? then None else Some(children + [Directory(name, [])])
  }

  function Drop(name: string): Edit {
    (children: seq<VfsNode>) =>
      match IndexOf(children, name)
      case None => None
      case Some(i) => Some(children[..i] + children[i + 1..])
  }

  /** The tree with an edit made in directory `dir`. */
  function EditAt(node: VfsNode, dir: seq<string>, e: Edit): Option<VfsNode>
    decreases |dir|
  {
    if node.File? then None
    else if dir == [] then
      match e(node.children) {
        case None => None
        case Some(cs) => Some(Directory(node.name, cs))
      }
    else
      match IndexOf(node.children, dir[0]) {
        case None => None
        case Some(i) =>
          match EditAt(node.children[i], dir[1..], e)
          case None => None
          case Some(c) => Some(Directory(node.name, node.children[i := c]))
      }
  }

  /** The children an edit at `dir` works on. */
  function ChildrenAt(node: VfsNode, dir: seq<string>): Option<seq<VfsNode>>
    decreases |dir|
  {
    if node.File? then None
    else if dir == [] then Some(node.children)
    else match IndexOf(node.children, dir[0]) {
      case None => None
      case Some(i) => ChildrenAt(node.children[i], dir[1..])
    }
  }

  lemma {:induction false} EditSucceeds(node: VfsNode, dir: seq<string>, e: Edit)
    ensures EditAt(node, dir, e).Some? <==> ChildrenAt(node, dir).Some? && e(ChildrenAt(node, dir).value).Some?
    ensures ChildrenAt(node, dir).Some? <==> Lookup(node, dir) == Some(Dir)
    decreases |dir|
  {
    if node.Directory? && dir != [] {
      match IndexOf(node.children, dir[0])
      case None =>
      case Some(i) => EditSucceeds(node.children[i], dir[1..], e);
    }
  }

  lemma {:induction false} LookupThrough(node: VfsNode, dir: seq<string>, q: seq<string>)
    requires ChildrenAt(node, dir).Some? && q != []
    ensures Lookup(node, dir + q) == LookupIn(ChildrenAt(node, dir).value, q)
    decreases |dir|
  {
    if dir == [] {
      assert dir + q == q;
    } else {
      var i := IndexOf(node.children, dir[0]).value;
      LookupThrough(node.children[i], dir[1..], q);
      assert (dir + q)[1..] == dir[1..] + q;
    }
  }

  /** An edit changes only what lies strictly below its directory, and there as it changes the
      children. */
  lemma {:induction false} EditLookup(node: VfsNode, dir: seq<string>, e: Edit, q: seq<string>)
    requires EditAt(node, dir, e).Some?
    ensures ChildrenAt(node, dir).Some?
    ensures var cs := ChildrenAt(node, dir).value;
            e(cs).Some? &&
            Lookup(EditAt(node, dir, e).value, q)
              == if dir < q then LookupIn(e(cs).value, q[|dir|..]) else Lookup(node, q)
    decreases |dir|
  {
    if dir != [] {
      var i := IndexOf(node.children, dir[0]).value;
      var c := EditAt(node.children[i], dir[1..], e).value;
      EditLookup(node.children[i], dir[1..], e, if q == [] then [] else q[1..]);
      EditKeepsName(node.children[i], dir[1..], e);
      if q != [] {
        IndexUpdate(node.children, i, c, q[0]);
        assert dir < q <==> q[0] == dir[0] && dir[1..] < q[1..] by {
          if q[0] == dir[0] {
            assert q == [q[0]] + q[1..] && dir == [dir[0]] + dir[1..];
          }
        }
        if dir < q {
          assert q[1..][|dir| - 1..] == q[|dir|..];
        }
      }
    }
  }

  lemma EditKeepsName(node: VfsNode, dir: seq<string>, e: Edit)
    requires EditAt(node, dir, e).Some?
    ensures EditAt(node, dir, e).value.name == node.name && EditAt(node, dir, e).value.Directory?
  {
  }

  lemma IndexUpdate(children: seq<VfsNode>, i: nat, c: VfsNode, name: string)
    requires i < |children| && c.name == children[i].name
    ensures IndexOf(children[i := c], name) == IndexOf(children, name)
  {
    match IndexOf(children, name)
    case None =>
      forall d | d in children[i := c] ensures d.name != name {
        assert d == c || d in children;
        assert children[i] in children;
      }
      IndexMissing(children[i := c], name);
    case Some(k) => IndexIs(children[i := c], name, k);
  }

  lemma {:induction false} EditKeepsWellFormed(node: VfsNode, dir: seq<string>, e: Edit)
    requires WellFormed(node) && EditAt(node, dir, e).Some?
    requires ChildrenAt(node, dir).Some?
    requires forall cs | SiblingsOk(cs) && e(cs).Some? :: SiblingsOk(e(cs).value)
    ensures WellFormed(EditAt(node, dir, e).value)
    decreases |dir|
  {
    if dir != [] {
      var i := IndexOf(node.children, dir[0]).value;
      assert node.children[i] in node.children;
      EditKeepsWellFormed(node.children[i], dir[1..], e);
      EditKeepsName(node.children[i], dir[1..], e);
      var cs := node.children[i := EditAt(node.children[i], dir[1..], e).value];
      assert forall c | c in cs :: c == cs[i] || c in node.children;
    }
  }

  /** What `ls` shows of a directory: its children's names in order, and which are directories. */
  function Listing(children: seq<VfsNode>): seq<(string, bool)> {
    seq(|children|, i requires 0 <= i < |children| => (children[i].name, children[i].Directory?))
  }

  function ListingAt(node: VfsNode, dir: seq<string>): Option<seq<(string, bool)>> {
    match ChildrenAt(node, dir)
    case None => None
    case Some(cs) => Some(Listing(cs))
  }

  function ListingIn(children: seq<VfsNode>, dir: seq<string>): Option<seq<(string, bool)>>
    requires dir != []
  {
    match IndexOf(children, dir[0])
    case None => None
    case Some(i) => ListingAt(children[i], dir[1..])
  }

  lemma OneNameDown(dir: seq<string>, d: seq<string>)
    requires dir != [] && d != []
    ensures dir < d <==> d[0] == dir[0] && dir[1..] < d[1..]
    ensures dir == d <==> d[0] == dir[0] && dir[1..] == d[1..]
    ensures dir < d ==> d[1..][|dir| - 1..] == d[|dir|..]
  {
    assert d == [d[0]] + d[1..] && dir == [dir[0]] + dir[1..];
  }

  /** Another directory in the place of child i. */
  lemma ListingBelow(node: VfsNode, i: nat, c: VfsNode, d: seq<string>)
    requires node.Directory? && i < |node.children| && node.children[i].Directory? && c.Directory?
    requires c.name == node.children[i].name && IndexOf(node.children, c.name) == Some(i)
    ensures ListingAt(Directory(node.name, node.children[i := c]), d)
         == if d != [] && d[0] == c.name then ListingAt(c, d[1..]) else ListingAt(node, d)
  {
    if d == [] {
      assert Listing(node.children[i := c]) == Listing(node.children);
    } else {
      IndexUpdate(node.children, i, c, d[0]);
    }
  }

  /** An edit changes the listing of its own directory and of those strictly below it, as it changes
      the children; every other directory lists the same, in the same order. */
  lemma {:induction false} EditListing(node: VfsNode, dir: seq<string>, e: Edit, d: seq<string>)
    requires EditAt(node, dir, e).Some?
    ensures ChildrenAt(node, dir).Some?
    ensures var cs := ChildrenAt(node, dir).value;
            e(cs).Some? &&
            ListingAt(EditAt(node, dir, e).value, d)
              == if d == dir then Some(Listing(e(cs).value))
                 else if dir < d then ListingIn(e(cs).value, d[|dir|..])
                 else ListingAt(node, d)
    decreases |dir|
  {
    if dir == [] {
      assert d[0..] == d;
    } else {
      var i := IndexOf(node.children, dir[0]).value;
      var child := node.children[i];
      EditKeepsName(child, dir[1..], e);
      ListingBelow(node, i, EditAt(child, dir[1..], e).value, d);
      if d != [] && d[0] == dir[0] {
        EditListing(child, dir[1..], e, d[1..]);
        OneNameDown(dir, d);
      } else {
        EditSucceeds(node, dir, e);
      }
    }
  }

  /** Two edits of one directory are one edit; when the second takes back the first, the tree is
      exactly the old one, order of children included. */
  lemma {:induction false} EditUndone(node: VfsNode, dir: seq<string>, e: Edit, undo: Edit)
    requires EditAt(node, dir, e).Some?
    requires ChildrenAt(node, dir).Some?
    requires var cs := ChildrenAt(node, dir).value; e(cs).Some? && undo(e(cs).value) == Some(cs)
    ensures EditAt(EditAt(node, dir, e).value, dir, undo) == Some(node)
    decreases |dir|
  {
    if dir == [] {
      assert Directory(node.name, node.children) == node;
    } else {
      var i := IndexOf(node.children, dir[0]).value;
      var c := EditAt(node.children[i], dir[1..], e).value;
      EditKeepsName(node.children[i], dir[1..], e);
      IndexUpdate(node.children, i, c, dir[0]);
      EditUndone(node.children[i], dir[1..], e, undo);
      assert node.children[i := c][i := node.children[i]] == node.children;
    }
  }

  // ---- The three operations as edits of the parent directory ----

  function Parent(p: seq<string>): seq<string>
    requires p != []
  {
    p[..|p| - 1]
  }

  function Base(p: seq<string>): string
    requires p != []
  {
    p[|p| - 1]
  }

  function WriteTree(root: VfsNode, p: seq<string>, data: seq<byte>): Option<VfsNode>
    requires p != []
  {
    EditAt(root, Parent(p), PutFile(Base(p), data))
  }

  function MkdirTree(root: VfsNode, p: seq<string>): Option<VfsNode>
    requires p != []
  {
    EditAt(root, Parent(p), AddDirectory(Base(p)))
  }

  function RemoveTree(root: VfsNode, p: seq<string>): Option<VfsNode>
    requires p != []
  {
    EditAt(root, Parent(p), Drop(Base(p)))
  }

  /** The children found by the walk to p's parent answer for every key below it. */
  lemma BelowParent(root: VfsNode, p: seq<string>, q: seq<string>)
    requires p != [] && ChildrenAt(root, Parent(p)).Some? && Parent(p) < q
    ensures Lookup(root, q) == LookupIn(ChildrenAt(root, Parent(p)).value, q[|p| - 1..])
    ensures p == q <==> q[|p| - 1..] == [Base(p)]
    ensures p <= q <==> q[|p| - 1] == Base(p)
  {
    LookupThrough(root, Parent(p), q[|p| - 1..]);
    assert Parent(p) + q[|p| - 1..] == q;
    assert Parent(p) + [Base(p)] == p;
  }

  lemma NoEntryBelow(root: VfsNode, p: seq<string>)
    requires p != [] && ChildrenAt(root, Parent(p)).None?
    ensures Lookup(root, p).None? && !(Lookup(root, Parent(p)) == Some(Dir))
  {
    EditSucceeds(root, Parent(p), Drop(Base(p)));
    if Lookup(root, p).Some? {
      PrefixClosed(root, p, |p| - 1);
    }
  }

  lemma AppendChild(cs: seq<VfsNode>, c: VfsNode, q: seq<string>)
    requires IndexOf(cs, c.name).None? && q != []
    ensures LookupIn(cs + [c], q) == if q[0] == c.name then Lookup(c, q[1..]) else LookupIn(cs, q)
  {
    if q[0] == c.name {
      IndexIs(cs + [c], q[0], |cs|);
      assert (cs + [c])[|cs|] == c;
    } else {
      match IndexOf(cs, q[0])
      case None => IndexMissing(cs + [c], q[0]);
      case Some(i) => IndexIs(cs + [c], q[0], i);
    }
  }

  lemma ReplaceFile(cs: seq<VfsNode>, i: nat, data: seq<byte>, q: seq<string>)
    requires i < |cs| && IndexOf(cs, cs[i].name) == Some(i) && cs[i].File? && q != []
    ensures LookupIn(cs[i := File(cs[i].name, data)], q)
         == if q == [cs[i].name] then Some(Bytes(data)) else LookupIn(cs, q)
  {
    IndexUpdate(cs, i, File(cs[i].name, data), q[0]);
    assert q == [q[0]] + q[1..];
  }

  /** `left` is cs without child i. */
  predicate WithoutChild(cs: seq<VfsNode>, i: nat, left: seq<VfsNode>) {
    && i < |cs| && |left| == |cs| - 1
    && (forall k | 0 <= k < i :: left[k] == cs[k])
    && (forall k | i <= k < |left| :: left[k] == cs[k + 1])
  }

  function Shifted(i: nat, r: Option<nat>): Option<nat> {
    match r
    case None => None
    case Some(k) => if k == i then None else if k < i then Some(k) else Some(k - 1)
  }

  lemma DropIndex(cs: seq<VfsNode>, i: nat, left: seq<VfsNode>, name: string)
    requires DistinctNames(cs) && WithoutChild(cs, i, left)
    ensures IndexOf(left, name) == Shifted(i, IndexOf(cs, name))
  {
    match Shifted(i, IndexOf(cs, name))
    case Some(k) => IndexIs(left, name, k);
    case None =>
      forall c | c in left ensures c.name != name {
        var m :| 0 <= m < |left| && left[m] == c;
        assert cs[if m < i then m else m + 1] == c && c in cs;
      }
      IndexMissing(left, name);
  }

  /** Given where the remaining names went, what they lead to. */
  lemma DropLookup(cs: seq<VfsNode>, i: nat, left: seq<VfsNode>, q: seq<string>)
    requires q != [] && WithoutChild(cs, i, left) && IndexOf(left, q[0]) == Shifted(i, IndexOf(cs, q[0]))
    ensures LookupIn(left, q) == if IndexOf(cs, q[0]) == Some(i) then None else LookupIn(cs, q)
  {
  }

  lemma DropChild(cs: seq<VfsNode>, name: string, q: seq<string>)
    requires SiblingsOk(cs) && IndexOf(cs, name).Some? && q != []
    ensures Drop(name)(cs).Some?
    ensures LookupIn(Drop(name)(cs).value, q) == if q[0] == name then None else LookupIn(cs, q)
  {
    var i := IndexOf(cs, name).value;
    var left := cs[..i] + cs[i + 1..];
    DropIndex(cs, i, left, q[0]);
    DropLookup(cs, i, left, q);
  }

  lemma WriteLookup(root: VfsNode, p: seq<string>, data: seq<byte>, q: seq<string>)
    requires p != [] && WriteTree(root, p, data).Some?
    ensures Lookup(WriteTree(root, p, data).value, q) == if q == p then Some(Bytes(data)) else Lookup(root, q)
  {
    EditLookup(root, Parent(p), PutFile(Base(p), data), q);
    var cs := ChildrenAt(root, Parent(p)).value;
    if Parent(p) < q {
      BelowParent(root, p, q);
      match IndexOf(cs, Base(p))
      case None => AppendChild(cs, File(Base(p), data), q[|p| - 1..]);
      case Some(i) => ReplaceFile(cs, i, data, q[|p| - 1..]);
    }
  }

  /** `write_file` sets one key, and succeeds exactly when the parent is a directory and the path
      is not. */
  lemma WriteRefines(root: VfsNode, p: seq<string>, data: seq<byte>)
    requires p != []
    ensures WriteTree(root, p, data).Some?
       <==> Lookup(root, Parent(p)) == Some(Dir) && Lookup(root, p) != Some(Dir)
    ensures WriteTree(root, p, data).Some?
        ==> View(WriteTree(root, p, data).value) == View(root)[p := Bytes(data)]
  {
    EditSucceeds(root, Parent(p), PutFile(Base(p), data));
    if ChildrenAt(root, Parent(p)).Some? {
      BelowParent(root, p, p);
    }
    if WriteTree(root, p, data).Some? {
      forall q { WriteLookup(root, p, data, q); }
    }
  }

  lemma MkdirLookup(root: VfsNode, p: seq<string>, q: seq<string>)
    requires p != [] && MkdirTree(root, p).Some?
    ensures Lookup(MkdirTree(root, p).value, q) == if q == p then Some(Dir) else Lookup(root, q)
  {
    EditLookup(root, Parent(p), AddDirectory(Base(p)), q);
    if Parent(p) < q {
      BelowParent(root, p, q);
      AppendChild(ChildrenAt(root, Parent(p)).value, Directory(Base(p), []), q[|p| - 1..]);
    }
  }

  /** `mkdir` adds one directory key, and succeeds exactly when the parent is a directory and the
      path is free. */
  lemma MkdirRefines(root: VfsNode, p: seq<string>)
    requires p != []
    ensures MkdirTree(root, p).Some? <==> Lookup(root, Parent(p)) == Some(Dir) && Lookup(root, p).None?
    ensures MkdirTree(root, p).Some? ==> View(MkdirTree(root, p).value) == View(root)[p := Dir]
  {
    EditSucceeds(root, Parent(p), AddDirectory(Base(p)));
    if ChildrenAt(root, Parent(p)).Some? {
      BelowParent(root, p, p);
    }
    if MkdirTree(root, p).Some? {
      forall q { MkdirLookup(root, p, q); }
    }
  }

  lemma RemoveLookup(root: VfsNode, p: seq<string>, q: seq<string>)
    requires p != [] && WellFormed(root) && RemoveTree(root, p).Some?
    ensures Lookup(RemoveTree(root, p).value, q) == if Under(p, q) then None else Lookup(root, q)
  {
    EditLookup(root, Parent(p), Drop(Base(p)), q);
    if Parent(p) < q {
      BelowParent(root, p, q);
      ChildrenWellFormed(root, Parent(p));
      DropChild(ChildrenAt(root, Parent(p)).value, Base(p), q[|p| - 1..]);
    }
  }

  /** `remove` deletes exactly the keys at or below the path, and succeeds exactly when there is
      one. */
  lemma RemoveRefines(root: VfsNode, p: seq<string>)
    requires p != [] && WellFormed(root)
    ensures RemoveTree(root, p).Some? <==> Lookup(root, p).Some?
    ensures RemoveTree(root, p).Some? ==> View(RemoveTree(root, p).value) == Without(View(root), p)
  {
    EditSucceeds(root, Parent(p), Drop(Base(p)));
    if ChildrenAt(root, Parent(p)).Some? {
      BelowParent(root, p, p);
    } else {
      NoEntryBelow(root, p);
    }
    if RemoveTree(root, p).Some? {
      forall q { RemoveLookup(root, p, q); }
    }
  }

  lemma {:induction false} ChildrenWellFormed(node: VfsNode, dir: seq<string>)
    requires WellFormed(node) && ChildrenAt(node, dir).Some?
    ensures SiblingsOk(ChildrenAt(node, dir).value)
    decreases |dir|
  {
    if dir != [] {
      var i := IndexOf(node.children, dir[0]).value;
      assert node.children[i] in node.children;
      ChildrenWellFormed(node.children[i], dir[1..]);
    }
  }

  lemma SiblingsAppend(cs: seq<VfsNode>, c: VfsNode)
    requires SiblingsOk(cs) && IndexOf(cs, c.name).None? && Name(c.name) && WellFormed(c)
    ensures SiblingsOk(cs + [c])
  {
    assert forall d | d in cs + [c] :: d == c || d in cs;
  }

  lemma SiblingsChange(cs: seq<VfsNode>, i: nat, c: VfsNode)
    requires SiblingsOk(cs) && i < |cs| && c.name == cs[i].name && WellFormed(c)
    ensures SiblingsOk(cs[i := c]) && SiblingsOk(cs[..i] + cs[i + 1..])
  {
    assert cs[i] in cs;
    assert forall d | d in cs[i := c] :: d == c || d in cs;
    assert forall d | d in cs[..i] + cs[i + 1..] :: d in cs;
  }

  /** Every operation keeps sibling names proper and distinct, all the way down. */
  lemma OperationsKeepWellFormed(root: VfsNode, p: seq<string>, data: seq<byte>)
    requires p != [] && WellFormed(root) && Name(Base(p))
    ensures WriteTree(root, p, data).Some? ==> WellFormed(WriteTree(root, p, data).value)
    ensures MkdirTree(root, p).Some? ==> WellFormed(MkdirTree(root, p).value)
    ensures RemoveTree(root, p).Some? ==> WellFormed(RemoveTree(root, p).value)
  {
    var name := Base(p);
    forall cs: seq<VfsNode> | SiblingsOk(cs)
      ensures PutFile(name, data)(cs).Some? ==> SiblingsOk(PutFile(name, data)(cs).value)
      ensures AddDirectory(name)(cs).Some? ==> SiblingsOk(AddDirectory(name)(cs).value)
      ensures Drop(name)(cs).Some? ==> SiblingsOk(Drop(name)(cs).value)
    {
      match IndexOf(cs, name)
      case None =>
        SiblingsAppend(cs, File(name, data));
        SiblingsAppend(cs, Directory(name, []));
      case Some(i) =>
        SiblingsChange(cs, i, File(name, data));
    }
    EditSucceeds(root, Parent(p), PutFile(name, data));
    EditSucceeds(root, Parent(p), AddDirectory(name));
    EditSucceeds(root, Parent(p), Drop(name));
    if WriteTree(root, p, data).Some? {
      EditKeepsWellFormed(root, Parent(p), PutFile(name, data));
    }
    if MkdirTree(root, p).Some? {
      assert WellFormed(Directory(name, []));
      EditKeepsWellFormed(root, Parent(p), AddDirectory(name));
    }
    if RemoveTree(root, p).Some? {
      EditKeepsWellFormed(root, Parent(p), Drop(name));
    }
  }

  // ---- Listings ----

  lemma {:induction false} ListingThrough(node: VfsNode, dir: seq<string>, d: seq<string>)
    requires ChildrenAt(node, dir).Some? && dir < d
    ensures ListingAt(node, d) == ListingIn(ChildrenAt(node, dir).value, d[|dir|..])
    decreases |dir|
  {
    if dir == [] {
      assert d[0..] == d;
    } else {
      var i := IndexOf(node.children, dir[0]).value;
      OneNameDown(dir, d);
      ListingThrough(node.children[i], dir[1..], d[1..]);
    }
  }

  lemma AppendListing(cs: seq<VfsNode>, c: VfsNode, q: seq<string>)
    requires IndexOf(cs, c.name).None? && q != []
    ensures ListingIn(cs + [c], q) == if q[0] == c.name then ListingAt(c, q[1..]) else ListingIn(cs, q)
    ensures Listing(cs + [c]) == Listing(cs) + [(c.name, c.Directory?)]
  {
    if q[0] == c.name {
      IndexIs(cs + [c], q[0], |cs|);
      assert (cs + [c])[|cs|] == c;
    } else {
      match IndexOf(cs, q[0])
      case None => IndexMissing(cs + [c], q[0]);
      case Some(i) => IndexIs(cs + [c], q[0], i);
    }
  }

  lemma ReplaceListing(cs: seq<VfsNode>, i: nat, data: seq<byte>, q: seq<string>)
    requires i < |cs| && cs[i].File? && q != []
    ensures ListingIn(cs[i := File(cs[i].name, data)], q) == ListingIn(cs, q)
    ensures Listing(cs[i := File(cs[i].name, data)]) == Listing(cs)
  {
    IndexUpdate(cs, i, File(cs[i].name, data), q[0]);
  }

  /** Given where the remaining names went, what they list. */
  lemma DropListing(cs: seq<VfsNode>, i: nat, left: seq<VfsNode>, q: seq<string>)
    requires q != [] && WithoutChild(cs, i, left) && IndexOf(left, q[0]) == Shifted(i, IndexOf(cs, q[0]))
    ensures ListingIn(left, q) == if IndexOf(cs, q[0]) == Some(i) then None else ListingIn(cs, q)
  {
  }

  lemma DropFromListing(cs: seq<VfsNode>, i: nat)
    requires i < |cs|
    ensures WithoutChild(cs, i, cs[..i] + cs[i + 1..])
    ensures Listing(cs[..i] + cs[i + 1..]) == Listing(cs)[..i] + Listing(cs)[i + 1..]
  {
  }

  /** `mkdir` puts the new directory, empty, behind the others of its parent, and every other
      directory lists as before. */
  lemma MkdirListing(root: VfsNode, p: seq<string>, d: seq<string>)
    requires p != [] && MkdirTree(root, p).Some?
    ensures ListingAt(root, Parent(p)).Some?
    ensures ListingAt(MkdirTree(root, p).value, d)
         == if d == Parent(p) then Some(ListingAt(root, d).value + [(Base(p), true)])
            else if d == p then Some([])
            else ListingAt(root, d)
  {
    EditListing(root, Parent(p), AddDirectory(Base(p)), d);
    var cs := ChildrenAt(root, Parent(p)).value;
    if Parent(p) < d {
      BelowParent(root, p, d);
      ListingThrough(root, Parent(p), d);
      AppendListing(cs, Directory(Base(p), []), d[|p| - 1..]);
      assert Listing([]) == [] && d[|p| - 1..] == [d[|p| - 1]] + d[|p|..];
    } else {
      AppendListing(cs, Directory(Base(p), []), [""]);
    }
  }

  /** A creating `write_file` puts the new file behind the others; an overwriting one changes no
      listing. */
  lemma WriteListing(root: VfsNode, p: seq<string>, data: seq<byte>, d: seq<string>)
    requires p != [] && WriteTree(root, p, data).Some?
    ensures ListingAt(root, Parent(p)).Some?
    ensures ListingAt(WriteTree(root, p, data).value, d)
         == if d == Parent(p) && Lookup(root, p).None? then Some(ListingAt(root, d).value + [(Base(p), false)])
            else ListingAt(root, d)
  {
    EditListing(root, Parent(p), PutFile(Base(p), data), d);
    var cs := ChildrenAt(root, Parent(p)).value;
    BelowParent(root, p, p);
    var q := if Parent(p) < d then d[|p| - 1..] else [""];
    if Parent(p) < d {
      BelowParent(root, p, d);
      ListingThrough(root, Parent(p), d);
    }
    match IndexOf(cs, Base(p))
    case None =>
      AppendListing(cs, File(Base(p), data), q);
    case Some(i) =>
      ReplaceListing(cs, i, data, q);
  }

  /** `remove` takes its entry out of the parent's listing and leaves the others in their order;
      what was below it lists no more, and every other directory lists as before. */
  lemma RemoveListing(root: VfsNode, p: seq<string>, d: seq<string>) returns (i: nat)
    requires p != [] && WellFormed(root) && RemoveTree(root, p).Some?
    ensures ListingAt(root, Parent(p)).Some?
    ensures var l := ListingAt(root, Parent(p)).value;
            && i < |l| && l[i].0 == Base(p)
            && ListingAt(RemoveTree(root, p).value, d)
                 == if d == Parent(p) then Some(l[..i] + l[i + 1..])
                    else if Under(p, d) then None
                    else ListingAt(root, d)
  {
    EditListing(root, Parent(p), Drop(Base(p)), d);
    ChildrenWellFormed(root, Parent(p));
    var cs := ChildrenAt(root, Parent(p)).value;
    i := IndexOf(cs, Base(p)).value;
    var q := if Parent(p) < d then d[|p| - 1..] else [""];
    if Parent(p) < d {
      BelowParent(root, p, d);
      ListingThrough(root, Parent(p), d);
    }
    var left := cs[..i] + cs[i + 1..];
    DropFromListing(cs, i);
    DropIndex(cs, i, left, q[0]);
    DropListing(cs, i, left, q);
  }

  /** Removing what `mkdir` or a creating `write_file` just added restores the very same tree. */
  lemma CreationUndone(root: VfsNode, p: seq<string>, data: seq<byte>)
    requires p != [] && WellFormed(root)
    ensures MkdirTree(root, p).Some? ==> RemoveTree(MkdirTree(root, p).value, p) == Some(root)
    ensures WriteTree(root, p, data).Some? && Lookup(root, p).None?
        ==> RemoveTree(WriteTree(root, p, data).value, p) == Some(root)
  {
    var dir, name := Parent(p), Base(p);
    EditSucceeds(root, dir, AddDirectory(name));
    EditSucceeds(root, dir, PutFile(name, data));
    if ChildrenAt(root, dir).Some? {
      var cs := ChildrenAt(root, dir).value;
      BelowParent(root, p, p);
      if IndexOf(cs, name).None? {
        DropLast(cs, Directory(name, []));
        DropLast(cs, File(name, data));
        EditUndone(root, dir, AddDirectory(name), Drop(name));
        EditUndone(root, dir, PutFile(name, data), Drop(name));
      }
    }
  }

  lemma DropLast(cs: seq<VfsNode>, c: VfsNode)
    requires IndexOf(cs, c.name).None?
    ensures Drop(c.name)(cs + [c]) == Some(cs)
  {
    IndexIs(cs + [c], c.name, |cs|);
    assert (cs + [c])[..|cs|] + (cs + [c])[|cs| + 1..] == cs;
  }
}
