/** `POST /api/folder/create`: creates a folder, and any missing folder above
    it, below the static images root. The path is built with a template
    literal (a missing `currentPath` becomes the text "undefined") and runs
    of '/' are collapsed. Only `ensureDir` is inside the `try`. */
module FolderCreate {
  import opened Strings
  import opened PosixPath
  import opened JsValues
  import opened FileTree
  import opened Http

  /** This route's root differs from the upload root of the other routes. */
  const ImagesDir := "./static/images"

  const MissingName := Response(400, Text("Folder name is required"))
  const Created := Response(200, JsonMessage("Folder created successfully"))
  const CreateFailed := Response(500, Text("Error creating folder"))

  /** `${IMAGES_DIR}/${currentPath}/${folderName}` with every run of '/'
      made one, for the root `root` (the handler's is `ImagesDir`). */
  function FolderPath(root: string, currentPath: JsValue, folderName: JsValue): string
  {
    CollapseSlashes(root + "/" + ToJsString(currentPath) + "/" + ToJsString(folderName))
  }

  /** The whole request: the tree after it and the answer. */
  function CreateFolder(cwd: Location, root: string, t: Tree, folderName: JsValue, currentPath: JsValue, fault: bool): Handled
    requires NormalSegments(cwd, false)
  {
    if !IsTruthy(folderName) then Handled(MissingName, t)
    else
      var k := Resolve(cwd, FolderPath(root, currentPath, folderName));
      if !fault && CanEnsureDir(t, k) then Handled(Created, WithDir(t, k))
      else Handled(CreateFailed, t)
  }

  /** The handler; `fault` is the failure of `ensureDir` that the model does
      not track. */
  method HandleCreateFolder(fs: FileSystem, folderName: JsValue, currentPath: JsValue, fault: bool) returns (outcome: Outcome)
    requires fs.Valid()
    modifies fs
    ensures fs.Valid()
    ensures Handled(outcome, fs.tree) == CreateFolder(fs.cwd, ImagesDir, old(fs.tree), folderName, currentPath, fault)
  {
    if !IsTruthy(folderName) {
      return MissingName;
    }
    var folderPath := FolderPath(ImagesDir, currentPath, folderName);
    var ok := fs.EnsureDir(folderPath, fault);
    if ok {
      outcome := Created;
    } else {
      outcome := CreateFailed;
    }
  }

  // ---------------------------------------------------------------------
  // The answer and the tree

  /** 400 exactly when the folder name is missing; 200 exactly when no
      prefix of the location is a file and `ensureDir` did not fail, and then
      the location and all its ancestors are directories, every entry is
      kept, and the only new entries are those ancestors; 500 otherwise.
      Only a 200 changes the tree. */
  lemma CreateFolderAnswer(cwd: Location, root: string, t: Tree, folderName: JsValue, currentPath: JsValue, fault: bool)
    requires NormalSegments(cwd, false) && Closed(t)
    ensures var h, k := CreateFolder(cwd, root, t, folderName, currentPath, fault),
                        Resolve(cwd, FolderPath(root, currentPath, folderName));
      && h.outcome.Response?
      && (h.outcome.status == 400 <==> !IsTruthy(folderName))
      && (h.outcome.status == 200 <==> IsTruthy(folderName) && !fault && CanEnsureDir(t, k))
      && (h.outcome.status == 500 <==> IsTruthy(folderName) && !(!fault && CanEnsureDir(t, k)))
      && (h.outcome.status != 200 ==> h.tree == t)
      && (h.outcome.status == 200 ==>
            && (forall i :: 0 <= i <= |k| ==> k[..i] in h.tree && h.tree[k[..i]] == Dir)
            && (forall x :: x in t ==> x in h.tree && h.tree[x] == t[x])
            && (forall x :: x in h.tree && x !in t ==> x <= k))
      && Closed(h.tree)
  {
    var k := Resolve(cwd, FolderPath(root, currentPath, folderName));
    if IsTruthy(folderName) && !fault && CanEnsureDir(t, k) {
      EnsureDirEffect(t, k);
    }
  }

  /** Sending the same request again after it succeeded succeeds again and
      changes nothing. */
  lemma CreateFolderTwice(cwd: Location, root: string, t: Tree, folderName: JsValue, currentPath: JsValue)
    requires NormalSegments(cwd, false) && Closed(t)
    requires CreateFolder(cwd, root, t, folderName, currentPath, false).outcome == Created
    ensures var once := CreateFolder(cwd, root, t, folderName, currentPath, false);
      CreateFolder(cwd, root, once.tree, folderName, currentPath, false) == once
  {
    var k := Resolve(cwd, FolderPath(root, currentPath, folderName));
    EnsureDirIdempotent(t, k);
  }

  // ---------------------------------------------------------------------
  // The path

  /** The folder path has no "//", collapsing it again changes nothing, and
      its non-empty segments are the root's, then the current path's, then
      the folder name's. */
  lemma FolderPathSegments(root: string, currentPath: JsValue, folderName: JsValue)
    ensures NoDoubleSlash(FolderPath(root, currentPath, folderName))
    ensures CollapseSlashes(FolderPath(root, currentPath, folderName)) == FolderPath(root, currentPath, folderName)
    ensures NonEmpty(Split(FolderPath(root, currentPath, folderName), '/'))
         == NonEmpty(Split(root, '/')) + NonEmpty(Split(ToJsString(currentPath), '/'))
            + NonEmpty(Split(ToJsString(folderName), '/'))
  {
    ThreeSegments(root, ToJsString(currentPath), ToJsString(folderName));
  }

  lemma ThreeSegments(a: string, b: string, c: string)
    ensures NoDoubleSlash(CollapseSlashes(a + "/" + b + "/" + c))
    ensures CollapseSlashes(CollapseSlashes(a + "/" + b + "/" + c)) == CollapseSlashes(a + "/" + b + "/" + c)
    ensures NonEmpty(Split(CollapseSlashes(a + "/" + b + "/" + c), '/'))
         == NonEmpty(Split(a, '/')) + NonEmpty(Split(b, '/')) + NonEmpty(Split(c, '/'))
  {
    var s := a + "/" + b + "/" + c;
    CollapseIdempotent(s);
    CollapseKeepsSegments(s);
    assert s == (a + ['/'] + b) + ['/'] + c;
    SplitAppend(a + ['/'] + b, c, '/');
    SplitAppend(a, b, '/');
    NonEmptyAppend(Split(a, '/') + Split(b, '/'), Split(c, '/'));
    NonEmptyAppend(Split(a, '/'), Split(b, '/'));
  }

  /** An empty current path gives the same folder path as leaving the
      current path out of the template altogether. */
  lemma EmptyCurrentPath(root: string, folderName: JsValue)
    requires root != "" && root[|root| - 1] != '/'
    ensures FolderPath(root, Str(""), folderName) == CollapseSlashes(root + "/" + ToJsString(folderName))
  {
    SkipEmptyPiece(root, ToJsString(folderName));
  }

  lemma SkipEmptyPiece(root: string, f: string)
    requires root != "" && root[|root| - 1] != '/'
    ensures CollapseSlashes(root + "/" + "" + "/" + f) == CollapseSlashes(root + "/" + f)
  {
    assert root + "/" + "" + "/" + f == root + ("//" + f);
    assert root + "/" + f == root + ("/" + f);
    CollapseAppend(root, "//" + f);
    CollapseAppend(root, "/" + f);
    assert ("//" + f)[1..] == "/" + f;
  }

  /** With an empty current path, a clean folder name (no leading or doubled
      '/') is created directly below the root: the path is
      "./static/images/" and the name. */
  lemma EmptyCurrentPathTarget(name: string)
    requires name != "" && name[0] != '/' && NoDoubleSlash(name)
    ensures FolderPath(ImagesDir, Str(""), Str(name)) == ImagesDir + "/" + name
  {
    assert ImagesDir == ['.', '/', 's', 't', 'a', 't', 'i', 'c', '/', 'i', 'm', 'a', 'g', 'e', 's'];
    assert NoDoubleSlash(ImagesDir);
    EmptyCurrentPath(ImagesDir, Str(name));
    CleanBelow(ImagesDir, name);
  }

  lemma CleanBelow(root: string, name: string)
    requires root != "" && root[|root| - 1] != '/' && NoDoubleSlash(root)
    requires name != "" && name[0] != '/' && NoDoubleSlash(name)
    ensures CollapseSlashes(root + "/" + name) == root + "/" + name
  {
    var tail := "/" + name;
    assert NoDoubleSlash(tail) by {
      forall i | 0 <= i < |tail| - 1
        ensures !(tail[i] == '/' && tail[i + 1] == '/')
      {
        if i > 0 {
          assert tail[i] == name[i - 1] && tail[i + 1] == name[i];
        }
      }
    }
    assert root + "/" + name == root + tail;
    CollapseAppend(root, tail);
    CollapseNoDouble(root);
    CollapseNoDouble(tail);
  }
}
