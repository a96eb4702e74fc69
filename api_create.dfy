/** `POST /api/create`: creates a folder, and any missing folder above it,
    at `join(IMAGES_DIR, currentPath, folderName)`. The path is built before
    the `try`, so a `currentPath` or `folderName` that is not a string makes
    `join` throw out of the handler; only `ensureDir` is inside the `try`. */
module ApiCreate {
  import opened Strings
  import opened PosixPath
  import opened JsValues
  import opened FileTree
  import opened Http

  const ImagesDir := "./user_uploads"

  const MissingName := Response(400, Text("Folder name is required"))
  const Created := Response(200, JsonMessage("Folder created successfully"))
  const CreateFailed := Response(500, Text("Error creating folder"))

  /** `join(IMAGES_DIR, currentPath, folderName)`, for the upload root
      `root` (the handler's is `ImagesDir`). */
  function TargetPath(root: string, currentPath: string, folderName: string): string
  {
    JoinPaths([root, currentPath, folderName])
  }

  /** The whole request: the tree after it and the answer. */
  function CreateFolder(cwd: Location, root: string, t: Tree, folderName: JsValue, currentPath: JsValue, fault: bool): Handled
    requires NormalSegments(cwd, false)
  {
    if !IsTruthy(folderName) then Handled(MissingName, t)
    else if !currentPath.Str? || !folderName.Str? then Handled(Uncaught, t)
    else
      var k := Resolve(cwd, TargetPath(root, currentPath.s, folderName.s));
      if !fault && CanEnsureDir(t, k) then Handled(Created, WithDir(t, k))
      else Handled(CreateFailed, t)
  }

  /** The handler; `fault` is the failure of `ensureDir` that the model does
      not track. */
  method HandleCreate(fs: FileSystem, folderName: JsValue, currentPath: JsValue, fault: bool) returns (outcome: Outcome)
    requires fs.Valid()
    modifies fs
    ensures fs.Valid()
    ensures Handled(outcome, fs.tree) == CreateFolder(fs.cwd, ImagesDir, old(fs.tree), folderName, currentPath, fault)
  {
    if !IsTruthy(folderName) {
      return MissingName;
    }
    if !currentPath.Str? || !folderName.Str? {
      return Uncaught;
    }
    var folderPath := TargetPath(ImagesDir, currentPath.s, folderName.s);
    var ok := fs.EnsureDir(folderPath, fault);
    if ok {
      outcome := Created;
    } else {
      outcome := CreateFailed;
    }
  }

  // ---------------------------------------------------------------------
  // The answer and the tree

  /** 400 exactly when the folder name is missing; an escaping exception
      exactly when it is given but it or the current path is not a string;
      200 exactly when no prefix of the location is a file and `ensureDir`
      did not fail, and then the location and all its ancestors are
      directories, every entry is kept and the only new entries are those
      ancestors; 500 otherwise. Only a 200 changes the tree. */
  lemma CreateAnswer(cwd: Location, root: string, t: Tree, folderName: JsValue, currentPath: JsValue, fault: bool)
    requires NormalSegments(cwd, false) && Closed(t)
    ensures var h := CreateFolder(cwd, root, t, folderName, currentPath, fault);
      && (h.outcome.Response? && h.outcome.status == 400 <==> !IsTruthy(folderName))
      && (h.outcome.Uncaught? <==> IsTruthy(folderName) && !(currentPath.Str? && folderName.Str?))
      && (h.outcome.Response? && h.outcome.status != 400 ==> currentPath.Str? && folderName.Str?)
      && (h.outcome.Response? && h.outcome.status == 200 <==>
            && IsTruthy(folderName) && currentPath.Str? && folderName.Str? && !fault
            && CanEnsureDir(t, Resolve(cwd, TargetPath(root, currentPath.s, folderName.s))))
      && (!(h.outcome.Response? && h.outcome.status == 200) ==> h.tree == t)
      && Closed(h.tree)
  {
    if IsTruthy(folderName) && currentPath.Str? && folderName.Str? {
      var k := Resolve(cwd, TargetPath(root, currentPath.s, folderName.s));
      if !fault && CanEnsureDir(t, k) {
        EnsureDirEffect(t, k);
      }
    }
  }

  /** What a successful request does to the tree: the location and all its
      ancestors are directories, every entry is kept, and the only new
      entries are those ancestors. */
  lemma CreateEffect(cwd: Location, root: string, t: Tree, currentPath: string, folderName: string)
    requires NormalSegments(cwd, false) && Closed(t)
    requires CreateFolder(cwd, root, t, Str(folderName), Str(currentPath), false).outcome == Created
    ensures var r, k := CreateFolder(cwd, root, t, Str(folderName), Str(currentPath), false).tree,
                        Resolve(cwd, TargetPath(root, currentPath, folderName));
      && (forall i :: 0 <= i <= |k| ==> k[..i] in r && r[k[..i]] == Dir)
      && (forall x :: x in t ==> x in r && r[x] == t[x])
      && (forall x :: x in r && x !in t ==> x <= k)
  {
    EnsureDirEffect(t, Resolve(cwd, TargetPath(root, currentPath, folderName)));
  }

  /** Sending the same request again after it succeeded succeeds again and
      changes nothing. */
  lemma CreateTwice(cwd: Location, root: string, t: Tree, folderName: JsValue, currentPath: JsValue)
    requires NormalSegments(cwd, false) && Closed(t)
    requires CreateFolder(cwd, root, t, folderName, currentPath, false).outcome == Created
    ensures var once := CreateFolder(cwd, root, t, folderName, currentPath, false);
      CreateFolder(cwd, root, once.tree, folderName, currentPath, false) == once
  {
    var k := Resolve(cwd, TargetPath(root, currentPath.s, folderName.s));
    EnsureDirIdempotent(t, k);
  }

  // ---------------------------------------------------------------------
  // The path

  /** The target is already normalized: no "." segment, no ".." after a
      name, no "//". */
  lemma TargetPathNormalized(root: string, currentPath: string, folderName: string)
    ensures Normalize(TargetPath(root, currentPath, folderName)) == TargetPath(root, currentPath, folderName)
    ensures NoDoubleSlash(TargetPath(root, currentPath, folderName))
  {
    JoinPathsNormalized([root, currentPath, folderName]);
  }

  /** For a plain folder name, the target ends in that name and names the
      child of that name of the folder `join(IMAGES_DIR, currentPath)`. */
  lemma TargetPathChild(cwd: Location, root: string, currentPath: string, folderName: string)
    requires NormalSegments(cwd, false)
    requires root != "" && IsName(folderName) && folderName != ".."
    ensures LastPiece(TargetPath(root, currentPath, folderName), '/') == folderName
    ensures Resolve(cwd, TargetPath(root, currentPath, folderName))
         == Resolve(cwd, JoinPaths([root, currentPath])) + [folderName]
  {
    assert NonEmpty([root, currentPath]) != [];
    assert [root, currentPath] + [folderName] == [root, currentPath, folderName];
    var absolute, segs, trailing := JoinPathsAppendName([root, currentPath], folderName);
    ChildOfRendered(cwd, JoinPaths([root, currentPath]), TargetPath(root, currentPath, folderName),
                    absolute, segs, trailing, folderName);
  }

  lemma ChildOfRendered(cwd: Location, p: string, q: string, absolute: bool, segs: seq<string>, trailing: bool, x: string)
    requires NormalSegments(cwd, false)
    requires NormalSegments(segs + [x], !absolute) && x != ".."
    requires p == Render(absolute, segs, trailing) && q == Render(absolute, segs + [x], false)
    ensures LastPiece(q, '/') == x
    ensures Resolve(cwd, q) == Resolve(cwd, p) + [x]
  {
    assert NormalSegments(segs, !absolute) by {
      NormalPrefix(segs + [x], |segs|, !absolute);
      assert (segs + [x])[..|segs|] == segs;
    }
    LastPieceRender(absolute, segs + [x]);
    ResolveChild(cwd, absolute, segs, x);
    if trailing {
      ResolveIgnoresTrailing(cwd, absolute, segs);
    }
  }

  /** A trailing '/' does not change the location a path names. */
  lemma ResolveIgnoresTrailing(cwd: Location, absolute: bool, segs: seq<string>)
    requires NormalSegments(cwd, false) && NormalSegments(segs, !absolute)
    ensures Resolve(cwd, Render(absolute, segs, true)) == Resolve(cwd, Render(absolute, segs, false))
  {
    var body := PosixPath.Body(absolute, segs);
    if body != "" {
      var p := Render(absolute, segs, false);
      var q := Render(absolute, segs, true);
      assert q == p + "/";
      RenderNoDoubleSlash(absolute, segs, false);
      assert q[0] == p[0];
      SplitTrailingSlash(p);
      var base := if p[0] == '/' then [] else cwd;
      SkipEmptyBack(base, Split(p, '/'), false);
    }
  }
}
