/** The part of the host file system the handlers touch: a tree of files and
    directories, keyed by absolute location (the names from "/" down), and
    the four calls made on it (`exists`, `ensureDir`, `Deno.remove` with and
    without `recursive`, and `Deno.rename`). Relative paths are resolved
    against the process's working directory, lexically. */
module FileTree {
  import opened Strings
  import opened PosixPath

  /** An absolute location: the names from "/" down; [] is "/". */
  type Location = seq<string>

  datatype Entry = File | Dir

  type Tree = map<Location, Entry>

  function Parent(k: Location): Location
    requires |k| > 0
  {
    k[..|k| - 1]
  }

  /** A well-formed tree: the root is a directory, and every other entry
      sits in a directory. */
  predicate Closed(t: Tree)
  {
    && [] in t && t[[]] == Dir
    && forall k :: k in t && |k| > 0 ==> Parent(k) in t && t[Parent(k)] == Dir
  }

  /** The location a path names when the working directory is `cwd`. */
  function Resolve(cwd: Location, path: string): (k: Location)
    requires NormalSegments(cwd, false)
    ensures NormalSegments(k, false)
  {
    if |path| > 0 && path[0] == '/' then NormalizeSegments([], Split(path, '/'), false)
    else NormalizeSegments(cwd, Split(path, '/'), false)
  }

  /** A rendered path with one more plain name resolves to one location
      further down. */
  lemma ResolveChild(cwd: Location, absolute: bool, segs: seq<string>, x: string)
    requires NormalSegments(cwd, false)
    requires NormalSegments(segs + [x], !absolute) && x != ".."
    ensures Resolve(cwd, Render(absolute, segs + [x], false)) == Resolve(cwd, Render(absolute, segs, false)) + [x]
  {
    RenderSnoc(absolute, segs, x, false);
    if |segs| > 0 {
      ResolveChildOfNames(cwd, absolute, segs, x);
    } else {
      assert segs + [x] == [x];
      assert IsName(x);
      if absolute {
        ResolveTopAbsolute(cwd, x);
      } else {
        ResolveTopRelative(cwd, x);
      }
    }
  }

  /** "/x" names the child x of "/". */
  lemma ResolveTopAbsolute(cwd: Location, x: string)
    requires NormalSegments(cwd, false) && IsName(x) && x != ".."
    ensures Resolve(cwd, Render(true, [x], false)) == Resolve(cwd, Render(true, [], false)) + [x]
  {
    var q := "/" + x;
    assert Render(true, [], false) == "/";
    assert Render(true, [x], false) == q;
    assert Split("/", '/') == ["", ""];
    SplitLeadingSlash(x);
    SplitWithoutSep(x, '/');
    assert q[0] == '/';
    assert Split(q, '/') == ["", x];
    assert ["", x][1..] == [x];
    assert NormalizeSegments([x], [], false) == [x];
    assert NormalizeSegments([], [x], false) == [x];
    assert NormalizeSegments([], ["", x], false) == [x];
    assert NormalizeSegments([], ["", ""], false) == [];
  }

  /** "x" names the child x of the working directory ".". */
  lemma ResolveTopRelative(cwd: Location, x: string)
    requires NormalSegments(cwd, false) && IsName(x) && x != ".."
    ensures Resolve(cwd, Render(false, [x], false)) == Resolve(cwd, Render(false, [], false)) + [x]
  {
    assert Render(false, [], false) == ".";
    assert Render(false, [x], false) == x;
    SplitWithoutSep(".", '/');
    SplitWithoutSep(x, '/');
    assert x[0] != '/' by {
      assert x[0] in x;
    }
    assert NormalizeSegments(cwd + [x], [], false) == cwd + [x];
    assert NormalizeSegments(cwd, [x], false) == cwd + [x];
    assert NormalizeSegments(cwd, ["."], false) == cwd;
  }

  lemma ResolveChildOfNames(cwd: Location, absolute: bool, segs: seq<string>, x: string)
    requires NormalSegments(cwd, false) && |segs| > 0
    requires NormalSegments(segs, !absolute) && IsName(x) && x != ".."
    requires Render(absolute, segs + [x], false) == Render(absolute, segs, false) + "/" + x
    ensures Resolve(cwd, Render(absolute, segs + [x], false)) == Resolve(cwd, Render(absolute, segs, false)) + [x]
  {
    var p := Render(absolute, segs, false);
    var q := p + "/" + x;
    RenderNoDoubleSlash(absolute, segs, false);
    assert q == p + ['/'] + x;
    assert q[0] == p[0];
    SplitAppend(p, x, '/');
    SplitWithoutSep(x, '/');
    var base := if absolute then [] else cwd;
    NormalizeSegmentsAppend(base, Split(p, '/'), [x], false);
  }

  /** Some entry sits directly in `k`. */
  predicate HasChildren(t: Tree, k: Location)
  {
    exists x :: x in t && |x| == |k| + 1 && k <= x
  }

  /** In a well-formed tree every ancestor of an entry is present, so an
      entry strictly inside `k` gives `k` a child. */
  lemma {:induction false} AncestorChild(t: Tree, k: Location, x: Location)
    requires Closed(t) && x in t && k <= x && |k| < |x|
    ensures x[..|k| + 1] in t
    decreases |x|
  {
    if |x| > |k| + 1 {
      assert k <= Parent(x);
      AncestorChild(t, k, Parent(x));
      assert Parent(x)[..|k| + 1] == x[..|k| + 1];
    } else {
      assert x[..|k| + 1] == x;
    }
  }

  // ----- ensureDir -----------------------------------------------------

  /** `ensureDir` succeeds unless some ancestor of the location, or the
      location itself, is a file. */
  predicate CanEnsureDir(t: Tree, k: Location)
  {
    forall i :: 0 <= i <= |k| && k[..i] in t ==> t[k[..i]] == Dir
  }

  function Prefixes(k: Location): set<Location>
  {
    set i | 0 <= i <= |k| :: k[..i]
  }

  /** The tree after `ensureDir(k)`: every missing ancestor of `k`, and `k`,
      becomes a directory; nothing else changes. */
  function WithDir(t: Tree, k: Location): Tree
  {
    map x | x in t.Keys + Prefixes(k) :: if x in t then t[x] else Dir
  }

  /** `ensureDir` leaves a well-formed tree in which `k` and all its
      ancestors are directories, and keeps every entry it found. */
  lemma EnsureDirEffect(t: Tree, k: Location)
    requires Closed(t) && CanEnsureDir(t, k)
    ensures var r := WithDir(t, k);
      && Closed(r)
      && (forall i :: 0 <= i <= |k| ==> k[..i] in r && r[k[..i]] == Dir)
      && (forall x :: x in t ==> x in r && r[x] == t[x])
      && (forall x :: x in r && x !in t ==> x <= k)
  {
    var r := WithDir(t, k);
    forall i | 0 <= i <= |k|
      ensures k[..i] in r && r[k[..i]] == Dir
    {
      assert k[..i] in Prefixes(k);
    }
    forall x | x in r && |x| > 0
      ensures Parent(x) in r && r[Parent(x)] == Dir
    {
      if x !in t {
        var i :| 0 <= i <= |k| && x == k[..i];
        assert Parent(x) == k[..i - 1];
      }
    }
  }

  /** A second `ensureDir` of the same location succeeds and changes
      nothing. */
  lemma EnsureDirIdempotent(t: Tree, k: Location)
    requires Closed(t) && CanEnsureDir(t, k)
    ensures CanEnsureDir(WithDir(t, k), k)
    ensures WithDir(WithDir(t, k), k) == WithDir(t, k)
  {
    var r := WithDir(t, k);
    EnsureDirEffect(t, k);
    forall i | 0 <= i <= |k|
      ensures k[..i] in r
    {
    }
    assert Prefixes(k) <= r.Keys;
    assert r.Keys + Prefixes(k) == r.Keys;
  }

  // ----- Deno.remove -----------------------------------------------------

  /** `Deno.remove(k)` succeeds on an existing file or empty directory other
      than "/". */
  predicate CanRemove(t: Tree, k: Location)
  {
    k in t && |k| > 0 && (t[k] == Dir ==> !HasChildren(t, k))
  }

  /** `Deno.remove(k, { recursive: true })` succeeds on any existing entry
      other than "/". */
  predicate CanRemoveTree(t: Tree, k: Location)
  {
    k in t && |k| > 0
  }

  /** The tree without `k` and everything inside it. */
  function WithoutTree(t: Tree, k: Location): Tree
  {
    map x | x in t && !(k <= x) :: t[x]
  }

  /** Removing a file or an empty directory keeps the tree well formed. */
  lemma RemoveEffect(t: Tree, k: Location)
    requires Closed(t) && CanRemove(t, k)
    ensures Closed(t - {k})
    ensures k !in t - {k}
  {
    forall x | x in t - {k} && |x| > 0
      ensures Parent(x) != k
    {
      assert |x| == |Parent(x)| + 1 && Parent(x) <= x;
    }
  }

  /** Removing a subtree keeps the tree well formed and drops exactly the
      entries at or under `k`. */
  lemma RemoveTreeEffect(t: Tree, k: Location)
    requires Closed(t) && CanRemoveTree(t, k)
    ensures var r := WithoutTree(t, k);
      && Closed(r)
      && (forall x :: x in t ==> (x in r <==> !(k <= x)))
      && (forall x :: x in r ==> x in t && r[x] == t[x])
  {
    var r := WithoutTree(t, k);
    assert !(k <= []);
    forall x | x in r && |x| > 0
      ensures Parent(x) in r
    {
      assert Parent(x) <= x;
    }
  }

  // ----- Deno.rename -----------------------------------------------------

  /** When `rename(2)` succeeds: the source exists and is not "/", the
      target's parent is a directory, and, unless both are the same, the
      target is not inside the source, and a target that exists has the
      source's kind and, if a directory, is empty. */
  predicate CanRename(t: Tree, s: Location, d: Location)
  {
    && s in t && |s| > 0 && |d| > 0
    && Parent(d) in t && t[Parent(d)] == Dir
    && (s != d ==>
          && !(s <= d)
          && (d in t ==> t[d] == t[s] && (t[d] == Dir ==> !HasChildren(t, d))))
  }

  /** The keys of the tree after renaming `s` to `d`. */
  function RenamedKeys(t: Tree, s: Location, d: Location): set<Location>
  {
    (set x | x in t && !(s <= x) && !(d <= x)) + (set x | x in t && s <= x :: d + x[|s|..])
  }

  /** The tree after renaming `s` to `d`: what was at `s + rest` is now at
      `d + rest`; whatever was at `d` is replaced. */
  function Renamed(t: Tree, s: Location, d: Location): Tree
  {
    map y | y in RenamedKeys(t, s, d) ::
      if d <= y && s + y[|d|..] in t then t[s + y[|d|..]]
      else if y in t then t[y]
      else Dir
  }

  lemma RenamedOld(t: Tree, s: Location, d: Location, x: Location)
    requires x in t && s <= x
    ensures d + x[|s|..] in Renamed(t, s, d)
    ensures Renamed(t, s, d)[d + x[|s|..]] == t[x]
  {
    var y := d + x[|s|..];
    assert y in RenamedKeys(t, s, d);
    assert y[|d|..] == x[|s|..];
    assert s + y[|d|..] == x;
  }

  /** A key of the renamed tree under `d` comes from the source subtree. */
  lemma RenamedKeyOrigin(t: Tree, s: Location, d: Location, y: Location)
    requires y in RenamedKeys(t, s, d) && d <= y
    ensures s + y[|d|..] in t
  {
    if y !in (set x | x in t && !(s <= x) && !(d <= x)) {
      var x :| x in t && s <= x && y == d + x[|s|..];
      assert y[|d|..] == x[|s|..];
      assert s + y[|d|..] == x;
    }
  }

  /** Renaming moves the whole source subtree under the target, leaves
      every entry outside both untouched, and keeps the tree well formed. */
  lemma RenameEffect(t: Tree, s: Location, d: Location)
    requires Closed(t) && CanRename(t, s, d)
    ensures var r := Renamed(t, s, d);
      && Closed(r)
      && (forall x :: x in t && s <= x ==> d + x[|s|..] in r && r[d + x[|s|..]] == t[x])
      && (forall x :: x in t && !(s <= x) && !(d <= x) ==> x in r && r[x] == t[x])
      && (forall y :: y in r ==> (d <= y) || (y in t && !(s <= y)))
  {
    RenameMovesSource(t, s, d);
    RenameKeepsOthers(t, s, d);
    RenameKeyPlaces(t, s, d);
    RenameClosed(t, s, d);
  }

  lemma RenameMovesSource(t: Tree, s: Location, d: Location)
    ensures var r := Renamed(t, s, d);
      forall x :: x in t && s <= x ==> d + x[|s|..] in r && r[d + x[|s|..]] == t[x]
  {
    forall x | x in t && s <= x
      ensures d + x[|s|..] in Renamed(t, s, d) && Renamed(t, s, d)[d + x[|s|..]] == t[x]
    {
      RenamedOld(t, s, d, x);
    }
  }

  lemma RenameKeepsOthers(t: Tree, s: Location, d: Location)
    ensures var r := Renamed(t, s, d);
      forall x :: x in t && !(s <= x) && !(d <= x) ==> x in r && r[x] == t[x]
  {
    forall x | x in t && !(s <= x) && !(d <= x)
      ensures x in Renamed(t, s, d) && Renamed(t, s, d)[x] == t[x]
    {
      assert x in RenamedKeys(t, s, d);
    }
  }

  lemma RenameKeyPlaces(t: Tree, s: Location, d: Location)
    ensures forall y :: y in Renamed(t, s, d) ==> (d <= y) || (y in t && !(s <= y))
  {
  }

  lemma RenameClosed(t: Tree, s: Location, d: Location)
    requires Closed(t) && CanRename(t, s, d)
    ensures Closed(Renamed(t, s, d))
  {
    var r := Renamed(t, s, d);
    assert [] in r by {
      assert !(s <= []) && !(d <= []);
      assert [] in RenamedKeys(t, s, d);
    }
    forall y | y in r && |y| > 0
      ensures Parent(y) in r && r[Parent(y)] == Dir
    {
      RenameParent(t, s, d, y);
    }
  }

  /** After renaming to another location, nothing is left at the source:
      the only way for it to stay would be to lie inside the target, which
      would then have had a child and could not have been replaced. */
  lemma RenameVacatesSource(t: Tree, s: Location, d: Location)
    requires Closed(t) && CanRename(t, s, d) && s != d
    ensures s !in Renamed(t, s, d)
  {
    if s in Renamed(t, s, d) {
      RenamedKeyOrigin(t, s, d, s) by {
        assert s in RenamedKeys(t, s, d);
        assert d <= s by {
          assert s !in (set x | x in t && !(s <= x) && !(d <= x));
          var x :| x in t && s <= x && s == d + x[|s|..];
        }
      }
      AncestorChild(t, d, s);
      var c := s[..|d| + 1];
      assert Parent(c) == d;
      assert HasChildren(t, d);
      assert false;
    }
  }

  lemma RenameParent(t: Tree, s: Location, d: Location, y: Location)
    requires Closed(t) && CanRename(t, s, d)
    requires y in Renamed(t, s, d) && |y| > 0
    ensures Parent(y) in Renamed(t, s, d) && Renamed(t, s, d)[Parent(y)] == Dir
  {
    if y == d {
      RenameParentOfTarget(t, s, d);
    } else if d <= y {
      RenameParentInside(t, s, d, y);
    } else {
      RenameParentOutside(t, s, d, y);
    }
  }

  /** The target's parent is an untouched directory. */
  lemma RenameParentOfTarget(t: Tree, s: Location, d: Location)
    requires CanRename(t, s, d)
    ensures Parent(d) in Renamed(t, s, d) && Renamed(t, s, d)[Parent(d)] == Dir
  {
    var p := Parent(d);
    assert p <= d && |p| < |d|;
    assert !(s <= p);
    assert p in RenamedKeys(t, s, d);
  }

  /** Inside the target, each entry's parent is the moved parent of its
      source. */
  lemma RenameParentInside(t: Tree, s: Location, d: Location, y: Location)
    requires Closed(t) && CanRename(t, s, d)
    requires y in Renamed(t, s, d) && d <= y && y != d
    ensures Parent(y) in Renamed(t, s, d) && Renamed(t, s, d)[Parent(y)] == Dir
  {
    var p := Parent(y);
    RenamedKeyOrigin(t, s, d, y);
    MovedParent(s, d, y);
    var px := s + p[|d|..];
    ParentInClosed(t, s + y[|d|..]);
    RenamedOld(t, s, d, px);
  }

  /** The parent of `s + rest` is `s` followed by the parent of `rest`. */
  lemma MovedParent(s: Location, d: Location, y: Location)
    requires d <= y && |y| > |d|
    ensures |s + y[|d|..]| > 0 && Parent(s + y[|d|..]) == s + Parent(y)[|d|..]
    ensures s <= s + Parent(y)[|d|..]
    ensures d + (s + Parent(y)[|d|..])[|s|..] == Parent(y)
  {
    var p := Parent(y);
    assert (s + p[|d|..])[|s|..] == p[|d|..];
    assert d + p[|d|..] == p;
  }

  lemma ParentInClosed(t: Tree, x: Location)
    requires Closed(t) && x in t && |x| > 0
    ensures Parent(x) in t && t[Parent(x)] == Dir
  {
  }

  /** Outside the target, an entry kept its place and so did its parent. */
  lemma RenameParentOutside(t: Tree, s: Location, d: Location, y: Location)
    requires Closed(t) && CanRename(t, s, d)
    requires y in Renamed(t, s, d) && !(d <= y) && |y| > 0
    ensures Parent(y) in Renamed(t, s, d) && Renamed(t, s, d)[Parent(y)] == Dir
  {
    var p := Parent(y);
    assert y in t && !(s <= y);
    assert p <= y;
    assert !(s <= p);
    assert !(d <= p);
    assert p in RenamedKeys(t, s, d);
  }

  // ----- The file system as the handlers see it ---------------------------

  /** The host file system: the working directory the process started in,
      and the tree, which the calls update in place. Every call takes a
      `fault` flag standing for an operating-system failure (permissions, a
      full disk, a race with another process) that the model does not
      track; with it set the call fails and changes nothing. */
  class FileSystem {
    const cwd: Location
    var tree: Tree

    ghost predicate Valid()
      reads this
    {
      NormalSegments(cwd, false) && Closed(tree)
    }

    constructor (cwd: Location, tree: Tree)
      requires NormalSegments(cwd, false) && Closed(tree)
      ensures Valid() && this.cwd == cwd && this.tree == tree
    {
      this.cwd := cwd;
      this.tree := tree;
    }

    /** `exists(path)` from the standard library: whether something is
        there. With `fault` set, the underlying `stat` fails with an error
        other than "not found", which `exists` passes on (`ok` is false). */
    method Exists(path: string, fault: bool) returns (ok: bool, found: bool)
      requires Valid()
      ensures ok == !fault
      ensures found <==> ok && Resolve(cwd, path) in tree
    {
      ok := !fault;
      found := ok && Resolve(cwd, path) in tree;
    }

    /** `ensureDir(path)`. */
    method EnsureDir(path: string, fault: bool) returns (ok: bool)
      requires Valid()
      modifies this
      ensures Valid()
      ensures ok <==> !fault && CanEnsureDir(old(tree), Resolve(cwd, path))
      ensures tree == if ok then WithDir(old(tree), Resolve(cwd, path)) else old(tree)
    {
      var k := Resolve(cwd, path);
      ok := !fault && CanEnsureDir(tree, k);
      if ok {
        EnsureDirEffect(tree, k);
        tree := WithDir(tree, k);
      }
    }

    /** `Deno.remove(path, { recursive })`. */
    method Remove(path: string, recursive: bool, fault: bool) returns (ok: bool)
      requires Valid()
      modifies this
      ensures Valid()
      ensures var k := Resolve(cwd, path);
        ok <==> !fault && (if recursive then CanRemoveTree(old(tree), k) else CanRemove(old(tree), k))
      ensures var k := Resolve(cwd, path);
        tree == if !ok then old(tree) else if recursive then WithoutTree(old(tree), k) else old(tree) - {k}
    {
      var k := Resolve(cwd, path);
      if recursive {
        ok := !fault && CanRemoveTree(tree, k);
        if ok {
          RemoveTreeEffect(tree, k);
          tree := WithoutTree(tree, k);
        }
      } else {
        ok := !fault && CanRemove(tree, k);
        if ok {
          RemoveEffect(tree, k);
          tree := tree - {k};
        }
      }
    }

    /** `Deno.rename(from, to)`. */
    method Rename(from: string, to: string, fault: bool) returns (ok: bool)
      requires Valid()
      modifies this
      ensures Valid()
      ensures ok <==> !fault && CanRename(old(tree), Resolve(cwd, from), Resolve(cwd, to))
      ensures tree == if ok then Renamed(old(tree), Resolve(cwd, from), Resolve(cwd, to)) else old(tree)
    {
      var s, d := Resolve(cwd, from), Resolve(cwd, to);
      ok := !fault && CanRename(tree, s, d);
      if ok {
        RenameEffect(tree, s, d);
        tree := Renamed(tree, s, d);
      }
    }
  }
}
