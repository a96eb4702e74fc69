/** `POST /api/folder/renameFolder`: renames the folder at `currentPath`
    (relative to the upload root) to `newName` in the same parent folder and
    answers with the new path relative to the upload root. Everything the
    handler does is inside one `try`, so every failure is answered with 500. */
module FolderRename {
  import opened Strings
  import opened PosixPath
  import opened JsValues
  import opened FileTree
  import opened Http

  /** The upload root as `join` writes it: `normalize` drops the leading "./". */
  const RootName := "user_uploads"

  /** The upload root as the handler writes it, "./user_uploads". */
  const ImagesDir := "./" + RootName

  const MissingFields := Response(400, JsonError("Current path and new name are required"))

  function Failure(cause: Cause): Outcome
  {
    Response(500, JsonErrorFrom("Error renaming folder: ", cause))
  }

  /** The request check: both fields truthy. */
  predicate ValidRequest(currentPath: JsValue, newName: JsValue)
  {
    IsTruthy(currentPath) && IsTruthy(newName)
  }

  /** `join(IMAGES_DIR, currentPath)`. */
  function OldPath(currentPath: string): string
  {
    JoinPaths([ImagesDir, currentPath])
  }

  /** `join(dirname(oldPath), newName)`: the sibling of the old path. */
  function NewPath(currentPath: string, newName: string): string
  {
    JoinPaths([Dirname(OldPath(currentPath)), newName])
  }

  /** `newPath.slice(IMAGES_DIR.length + 1)`, as written: it drops 15
      characters, two more than the "user_uploads/" that `join` leaves at
      the front of the path. */
  function AsWrittenRelativePath(newPath: string): string
  {
    SliceFrom(newPath, |ImagesDir| + 1)
  }

  /** The path relative to the upload root: the new path without the
      root's name and the '/' after it. */
  function RelativePath(newPath: string): string
  {
    SliceFrom(newPath, |RootName| + 1)
  }

  /** The whole request: the tree after it and the answer. */
  function RenameFolder(cwd: Location, t: Tree, currentPath: JsValue, newName: JsValue, fault: bool): Handled
    requires NormalSegments(cwd, false)
  {
    if !ValidRequest(currentPath, newName) then Handled(MissingFields, t)
    else if !currentPath.Str? || !newName.Str? then Handled(Failure(NotAString), t)
    else
      var newPath := NewPath(currentPath.s, newName.s);
      var from, to := Resolve(cwd, OldPath(currentPath.s)), Resolve(cwd, newPath);
      if !fault && CanRename(t, from, to) then
        Handled(Response(200, JsonRenamed("Folder renamed successfully", AsWrittenRelativePath(newPath))), Renamed(t, from, to))
      else Handled(Failure(OsError), t)
  }

  /** The handler, renaming on the file system; `fault` is the failure of
      `Deno.rename` that the model does not track. */
  method HandleRename(fs: FileSystem, currentPath: JsValue, newName: JsValue, fault: bool) returns (outcome: Outcome)
    requires fs.Valid()
    modifies fs
    ensures fs.Valid()
    ensures Handled(outcome, fs.tree) == RenameFolder(fs.cwd, old(fs.tree), currentPath, newName, fault)
  {
    if !ValidRequest(currentPath, newName) {
      return MissingFields;
    }
    if !currentPath.Str? || !newName.Str? {
      return Failure(NotAString);
    }
    var oldPath := OldPath(currentPath.s);
    var newPath := JoinPaths([Dirname(oldPath), newName.s]);
    var ok := fs.Rename(oldPath, newPath, fault);
    if ok {
      outcome := Response(200, JsonRenamed("Folder renamed successfully", AsWrittenRelativePath(newPath)));
    } else {
      outcome := Failure(OsError);
    }
  }

  // ---------------------------------------------------------------------
  // The answer and the tree

  /** 400 exactly when a field is missing, 200 exactly when both are strings
      and the rename succeeded, 500 otherwise; only a 200 changes the tree,
      which stays well formed. */
  lemma RenameAnswer(cwd: Location, t: Tree, currentPath: JsValue, newName: JsValue, fault: bool)
    requires NormalSegments(cwd, false) && Closed(t)
    ensures var h := RenameFolder(cwd, t, currentPath, newName, fault);
      && h.outcome.Response?
      && (h.outcome.status == 400 <==> !ValidRequest(currentPath, newName))
      && (h.outcome.status == 200 <==>
            && ValidRequest(currentPath, newName) && currentPath.Str? && newName.Str? && !fault
            && CanRename(t, Resolve(cwd, OldPath(currentPath.s)), Resolve(cwd, NewPath(currentPath.s, newName.s))))
      && (h.outcome.status == 500 <==> ValidRequest(currentPath, newName) && h.outcome.status != 200)
      && (h.outcome.status != 200 ==> h.tree == t)
      && Closed(h.tree)
  {
    var h := RenameFolder(cwd, t, currentPath, newName, fault);
    if h.outcome.status == 200 {
      var from, to := Resolve(cwd, OldPath(currentPath.s)), Resolve(cwd, NewPath(currentPath.s, newName.s));
      RenameEffect(t, from, to);
    }
  }

  /** A successful rename moves the folder and everything in it from the
      old path to the new one, leaves nothing at the old path, and keeps
      every entry outside both paths as it was. */
  lemma RenameMovesFolder(cwd: Location, t: Tree, currentPath: string, newName: string)
    requires NormalSegments(cwd, false) && Closed(t)
    requires RenameFolder(cwd, t, Str(currentPath), Str(newName), false).outcome.status == 200
    ensures var from, to := Resolve(cwd, OldPath(currentPath)), Resolve(cwd, NewPath(currentPath, newName));
      var r := RenameFolder(cwd, t, Str(currentPath), Str(newName), false).tree;
      && from in t
      && (forall x :: x in t && from <= x ==> to + x[|from|..] in r && r[to + x[|from|..]] == t[x])
      && (from != to ==> from !in r)
      && (forall x :: x in t && !(from <= x) && !(to <= x) ==> x in r && r[x] == t[x])
      && (forall y :: y in r ==> to <= y || (y in t && !(from <= y)))
  {
    var from, to := Resolve(cwd, OldPath(currentPath)), Resolve(cwd, NewPath(currentPath, newName));
    RenamedOnSuccess(cwd, t, currentPath, newName);
    MovedSubtree(t, from, to);
  }

  /** A 200 means the rename was allowed and the tree is the renamed one. */
  lemma RenamedOnSuccess(cwd: Location, t: Tree, currentPath: string, newName: string)
    requires NormalSegments(cwd, false)
    requires RenameFolder(cwd, t, Str(currentPath), Str(newName), false).outcome.status == 200
    ensures var from, to := Resolve(cwd, OldPath(currentPath)), Resolve(cwd, NewPath(currentPath, newName));
      && CanRename(t, from, to)
      && RenameFolder(cwd, t, Str(currentPath), Str(newName), false).tree == Renamed(t, from, to)
  {
  }

  lemma MovedSubtree(t: Tree, from: Location, to: Location)
    requires Closed(t) && CanRename(t, from, to)
    ensures var r := Renamed(t, from, to);
      && from in t
      && (forall x :: x in t && from <= x ==> to + x[|from|..] in r && r[to + x[|from|..]] == t[x])
      && (from != to ==> from !in r)
      && (forall x :: x in t && !(from <= x) && !(to <= x) ==> x in r && r[x] == t[x])
      && (forall y :: y in r ==> to <= y || (y in t && !(from <= y)))
  {
    RenameEffect(t, from, to);
    if from != to {
      RenameVacatesSource(t, from, to);
    }
  }

  // ---------------------------------------------------------------------
  // The paths

  /** For a plain new name, the new path sits in the same folder as the old
      one and ends in the new name. */
  lemma RenameKeepsParent(currentPath: string, newName: string)
    requires IsName(newName) && newName != ".."
    ensures Dirname(NewPath(currentPath, newName)) == Dirname(OldPath(currentPath))
    ensures LastPiece(NewPath(currentPath, newName), '/') == newName
  {
    var given := NonEmpty([ImagesDir, currentPath]);
    assert given[0] == ImagesDir;
    assert OldPath(currentPath) == Normalize(Join(given, '/'));
    SiblingPath(Join(given, '/'), newName);
  }

  /** A clean relative path of names below the root "./r" joins to "r/" and
      the path. */
  lemma UnderRoot(r: string, names: seq<string>)
    requires IsName(r) && r != ".."
    requires |names| >= 1 && forall i :: 0 <= i < |names| ==> IsName(names[i]) && names[i] != ".."
    ensures NormalSegments([r] + names, true)
    ensures JoinPaths(["./" + r, Join(names, '/')]) == Render(false, [r] + names, false)
  {
    var cp := Join(names, '/');
    assert |cp| > 0 by {
      BodyNonEmpty(false, names);
    }
    JoinTwo("./" + r, cp);
    NormalizeUnderRoot(r, names);
  }

  lemma NormalizeUnderRoot(r: string, names: seq<string>)
    requires IsName(r) && r != ".."
    requires |names| >= 1 && forall i :: 0 <= i < |names| ==> IsName(names[i]) && names[i] != ".."
    ensures NormalSegments([r] + names, true)
    ensures Normalize("./" + r + "/" + Join(names, '/')) == Render(false, [r] + names, false)
  {
    var cp := Join(names, '/');
    NamesBelow(r, names);
    CleanJoin(names);
    RootPieces(r, cp);
    DottedEnds(r, cp);
    NormalizeDotted("./" + r + "/" + cp, [r] + names);
  }

  /** Plain names below a plain name form a normalized stack. */
  lemma NamesBelow(r: string, names: seq<string>)
    requires IsName(r) && r != ".."
    requires forall i :: 0 <= i < |names| ==> IsName(names[i]) && names[i] != ".."
    ensures NormalSegments([r] + names, true)
  {
    var segs := [r] + names;
    forall i | 0 <= i < |segs|
      ensures IsName(segs[i]) && segs[i] != ".."
    {
      if i > 0 {
        assert segs[i] == names[i - 1];
      }
    }
  }

  /** Plain names joined by '/' split back into themselves and do not end
      in '/'. */
  lemma CleanJoin(names: seq<string>)
    requires |names| >= 1 && forall i :: 0 <= i < |names| ==> IsName(names[i]) && names[i] != ".."
    ensures var cp := Join(names, '/');
      |cp| > 0 && cp[|cp| - 1] != '/' && Split(cp, '/') == names
  {
    BodyNonEmpty(false, names);
  }

  lemma DottedEnds(r: string, cp: string)
    requires |cp| > 0
    ensures var s := "./" + r + "/" + cp;
      |s| > 0 && s[0] == '.' && s[|s| - 1] == cp[|cp| - 1]
  {
  }

  /** A relative path without trailing '/' that splits into "." and
      normalized names normalizes to those names. */
  lemma NormalizeDotted(s: string, segs: seq<string>)
    requires |s| > 0 && s[0] != '/' && s[|s| - 1] != '/'
    requires NormalSegments(segs, true) && Split(s, '/') == ["."] + segs
    ensures Normalize(s) == Render(false, segs, false)
  {
    var pieces := ["."] + segs;
    NormalizeSegmentsOfNormal([], segs, true);
    assert pieces[1..] == segs;
    assert NormalizeSegments([], pieces, true) == segs;
  }

  lemma JoinTwo(a: string, b: string)
    requires a != "" && b != ""
    ensures JoinPaths([a, b]) == Normalize(a + "/" + b)
  {
    assert NonEmpty([b]) == [b];
    assert NonEmpty([a, b]) == [a, b];
    assert [a, b][1..] == [b];
    assert Join([a, b], '/') == a + ['/'] + b;
    assert a + "/" + b == a + ['/'] + b;
  }

  lemma RootPieces(r: string, cp: string)
    requires '/' !in r
    ensures Split("./" + r + "/" + cp, '/') == ["."] + ([r] + Split(cp, '/'))
  {
    DotRoot(r);
    SplitAfter("./" + r, cp);
  }

  lemma DotRoot(r: string)
    requires '/' !in r
    ensures Split("./" + r, '/') == [".", r]
  {
    assert "./" + r == "." + ['/'] + r;
    SplitAppend(".", r, '/');
    SplitWithoutSep(".", '/');
    SplitWithoutSep(r, '/');
  }

  lemma SplitAfter(a: string, b: string)
    ensures Split(a + "/" + b, '/') == Split(a, '/') + Split(b, '/')
  {
    assert a + "/" + b == a + ['/'] + b;
    SplitAppend(a, b, '/');
  }

  lemma RenderTwo(r: string, names: seq<string>)
    requires |names| >= 1 && NormalSegments([r] + names, true)
    ensures Render(false, [r] + names, false) == r + "/" + Join(names, '/')
  {
    var segs := [r] + names;
    assert segs[1..] == names;
    assert Join(segs, '/') == r + ['/'] + Join(names, '/');
    BodyNonEmpty(false, segs);
  }

  /** For a clean `currentPath` (plain names joined by single '/') and a
      plain new name, the answered path is `currentPath` with its last name
      replaced by the new one, and joining it to the upload root again gives
      the renamed folder's path. */
  lemma RenamedRelativePath(names: seq<string>, newName: string)
    requires |names| >= 1 && forall i :: 0 <= i < |names| ==> IsName(names[i]) && names[i] != ".."
    requires IsName(newName) && newName != ".."
    ensures var newPath := NewPath(Join(names, '/'), newName);
      && newPath == RootName + "/" + Join(Init(names) + [newName], '/')
      && RelativePath(newPath) == Join(Init(names) + [newName], '/') != ""
      && JoinPaths([ImagesDir, RelativePath(newPath)]) == newPath
  {
    var rest := Init(names) + [newName];
    RenamedPath(names, newName);
    SiblingNames(names, newName);
    RootNameIsName();
    RootedPath(RootName, rest);
    var rel := Join(rest, '/');
    var newPath := RootName + "/" + rel;
    assert newPath[|RootName| + 1..] == rel;
  }

  lemma RootNameIsName()
    ensures IsName(RootName) && RootName != ".."
  {
    assert RootName == ['u', 's', 'e', 'r', '_', 'u', 'p', 'l', 'o', 'a', 'd', 's'];
  }

  /** The new path of a clean `currentPath` below the upload root. */
  lemma RenamedPath(names: seq<string>, newName: string)
    requires |names| >= 1 && forall i :: 0 <= i < |names| ==> IsName(names[i]) && names[i] != ".."
    requires IsName(newName) && newName != ".."
    ensures NewPath(Join(names, '/'), newName) == Render(false, [RootName] + (Init(names) + [newName]), false)
  {
    RootNameIsName();
    UnderRoot(RootName, names);
    SiblingUnderRoot(ImagesDir, RootName, names, newName);
  }

  /** A clean path below the root "./r", joined and written out. */
  lemma RootedPath(r: string, names: seq<string>)
    requires IsName(r) && r != ".."
    requires |names| >= 1 && forall i :: 0 <= i < |names| ==> IsName(names[i]) && names[i] != ".."
    ensures JoinPaths(["./" + r, Join(names, '/')]) == Render(false, [r] + names, false) == r + "/" + Join(names, '/')
    ensures Join(names, '/') != ""
  {
    UnderRoot(r, names);
    RenderTwo(r, names);
    BodyNonEmpty(false, names);
  }

  /** The sibling construction below a root "./r". */
  lemma SiblingUnderRoot(root: string, r: string, names: seq<string>, newName: string)
    requires |names| >= 1 && NormalSegments([r] + names, true)
    requires JoinPaths([root, Join(names, '/')]) == Render(false, [r] + names, false)
    requires IsName(newName) && newName != ".."
    ensures JoinPaths([Dirname(JoinPaths([root, Join(names, '/')])), newName])
         == Render(false, [r] + (Init(names) + [newName]), false)
  {
    SiblingOfRendered(JoinPaths([root, Join(names, '/')]), r, names, newName);
  }

  lemma SiblingOfRendered(p: string, r: string, names: seq<string>, name: string)
    requires |names| >= 1 && NormalSegments([r] + names, true) && p == Render(false, [r] + names, false)
    requires IsName(name) && name != ".."
    ensures JoinPaths([Dirname(p), name]) == Render(false, [r] + (Init(names) + [name]), false)
  {
    var segs := [r] + names;
    DirOfRendered(p, segs);
    JoinName(false, Init(segs), name);
    assert Init(segs) + [name] == [r] + (Init(names) + [name]);
  }

  lemma DirOfRendered(p: string, segs: seq<string>)
    requires |segs| >= 1 && NormalSegments(segs, true) && p == Render(false, segs, false)
    ensures NormalSegments(Init(segs), true)
    ensures Dirname(p) == Render(false, Init(segs), false)
  {
    DirnameRender(false, segs, false);
    NormalPrefix(segs, |segs| - 1, true);
    assert Init(segs) == segs[..|segs| - 1];
  }

  lemma SiblingNames(names: seq<string>, newName: string)
    requires |names| >= 1 && forall i :: 0 <= i < |names| ==> IsName(names[i]) && names[i] != ".."
    requires IsName(newName) && newName != ".."
    ensures var rest := Init(names) + [newName];
      |rest| >= 1 && forall i :: 0 <= i < |rest| ==> IsName(rest[i]) && rest[i] != ".."
  {
    var rest := Init(names) + [newName];
    forall i | 0 <= i < |rest|
      ensures IsName(rest[i]) && rest[i] != ".."
    {
      if i < |rest| - 1 {
        assert rest[i] == names[i];
      }
    }
  }

  // ---------------------------------------------------------------------
  // The relative path as written

  /** As written, the answered path always lacks the first two characters
      of the path relative to the upload root. */
  lemma AsWrittenDropsTwo(names: seq<string>, newName: string)
    requires |names| >= 1 && forall i :: 0 <= i < |names| ==> IsName(names[i]) && names[i] != ".."
    requires IsName(newName) && newName != ".."
    ensures var newPath := NewPath(Join(names, '/'), newName);
      && AsWrittenRelativePath(newPath) == SliceFrom(RelativePath(newPath), 2)
      && AsWrittenRelativePath(newPath) != RelativePath(newPath)
  {
    RenamedRelativePath(names, newName);
    SliceFurther(NewPath(Join(names, '/'), newName), |RootName| + 1);
  }

  lemma SliceFurther(p: string, k: nat)
    requires k < |p|
    ensures SliceFrom(p, k + 2) == SliceFrom(SliceFrom(p, k), 2)
    ensures SliceFrom(p, k + 2) != SliceFrom(p, k)
  {
    if k + 2 <= |p| {
      assert p[k + 2..] == p[k..][2..];
    }
    assert |SliceFrom(p, k + 2)| < |SliceFrom(p, k)|;
  }

  /** The path the route answers for a clean folder path: the renamed
      folder's path relative to the upload root, without its first two
      characters. */
  lemma TruncatedRelativePath(names: seq<string>, newName: string)
    requires |names| >= 1 && forall i :: 0 <= i < |names| ==> IsName(names[i]) && names[i] != ".."
    requires IsName(newName) && newName != ".."
    ensures AsWrittenRelativePath(NewPath(Join(names, '/'), newName)) == SliceFrom(Join(Init(names) + [newName], '/'), 2)
  {
    RenamedRelativePath(names, newName);
    AsWrittenDropsTwo(names, newName);
  }

  /** A 200 answers the new path sliced as written. */
  lemma RenameAnswersSlice(cwd: Location, t: Tree, currentPath: string, newName: string)
    requires NormalSegments(cwd, false)
    requires RenameFolder(cwd, t, Str(currentPath), Str(newName), false).outcome.status == 200
    ensures var out := RenameFolder(cwd, t, Str(currentPath), Str(newName), false).outcome;
      out.body == JsonRenamed("Folder renamed successfully", AsWrittenRelativePath(NewPath(currentPath, newName)))
  {
  }

  /** Renaming a folder directly below the upload root answers the new name
      without its first two characters. */
  lemma AsWrittenTopLevel(name: string, newName: string)
    requires IsName(name) && name != ".." && IsName(newName) && newName != ".."
    ensures RelativePath(NewPath(name, newName)) == newName
    ensures AsWrittenRelativePath(NewPath(name, newName)) == SliceFrom(newName, 2)
  {
    assert Join([name], '/') == name;
    assert Init([name]) + [newName] == [newName];
    assert Join([newName], '/') == newName;
    RenamedRelativePath([name], newName);
    AsWrittenDropsTwo([name], newName);
  }

  /** Renaming "photos" to "trips" answers "ips" instead of "trips". */
  lemma AsWrittenRenameExample()
    ensures var newPath := NewPath("photos", "trips");
      && RelativePath(newPath) == "trips"
      && AsWrittenRelativePath(newPath) == "ips"
  {
    assert "photos" == ['p', 'h', 'o', 't', 'o', 's'];
    assert "trips" == ['t', 'r', 'i', 'p', 's'];
    AsWrittenTopLevel("photos", "trips");
  }
}
