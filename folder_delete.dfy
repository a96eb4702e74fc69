/** `POST /api/folder/delete`: removes a folder of the upload root and
    everything in it. The path is built with a template literal, so any JSON
    value is turned into a string rather than rejected, and runs of '/' are
    collapsed. Only the removal is inside the `try`. */
module FolderDelete {
  import opened Strings
  import opened PosixPath
  import opened JsValues
  import opened FileTree
  import opened Http

  const ImagesDir := "./user_uploads"

  const MissingPath := Response(400, Text("Folder path is required"))
  const Deleted := Response(200, JsonMessage("Folder deleted successfully"))
  const DeleteFailed := Response(500, JsonError("Error deleting folder"))

  /** `${IMAGES_DIR}/${folderPath}` with every run of '/' made one, for the
      upload root `root` (the handler's is `ImagesDir`). */
  function FullPath(root: string, folderPath: JsValue): string
  {
    CollapseSlashes(root + "/" + ToJsString(folderPath))
  }

  /** The whole request: the tree after it and the answer. */
  function DeleteFolder(cwd: Location, root: string, t: Tree, folderPath: JsValue, fault: bool): Handled
    requires NormalSegments(cwd, false)
  {
    if !IsTruthy(folderPath) then Handled(MissingPath, t)
    else
      var k := Resolve(cwd, FullPath(root, folderPath));
      if !fault && CanRemoveTree(t, k) then Handled(Deleted, WithoutTree(t, k))
      else Handled(DeleteFailed, t)
  }

  /** The handler; `fault` is the failure of `Deno.remove` that the model
      does not track. */
  method HandleDeleteFolder(fs: FileSystem, folderPath: JsValue, fault: bool) returns (outcome: Outcome)
    requires fs.Valid()
    modifies fs
    ensures fs.Valid()
    ensures Handled(outcome, fs.tree) == DeleteFolder(fs.cwd, ImagesDir, old(fs.tree), folderPath, fault)
  {
    if !IsTruthy(folderPath) {
      return MissingPath;
    }
    var fullPath := FullPath(ImagesDir, folderPath);
    var ok := fs.Remove(fullPath, true, fault);
    if ok {
      outcome := Deleted;
    } else {
      outcome := DeleteFailed;
    }
  }

  // ---------------------------------------------------------------------
  // The answer and the tree

  /** 400 exactly when the folder path is missing; 200 exactly when the
      location exists, is not "/" and the removal did not fail, and then the
      location and everything under it are gone and every other entry is as
      it was; 500 otherwise. Only a 200 changes the tree. */
  lemma DeleteFolderAnswer(cwd: Location, root: string, t: Tree, folderPath: JsValue, fault: bool)
    requires NormalSegments(cwd, false) && Closed(t)
    ensures var h, k := DeleteFolder(cwd, root, t, folderPath, fault), Resolve(cwd, FullPath(root, folderPath));
      && h.outcome.Response?
      && (h.outcome.status == 400 <==> !IsTruthy(folderPath))
      && (h.outcome.status == 200 <==> IsTruthy(folderPath) && !fault && CanRemoveTree(t, k))
      && (h.outcome.status == 500 <==> IsTruthy(folderPath) && !(!fault && CanRemoveTree(t, k)))
      && (h.outcome.status != 200 ==> h.tree == t)
      && (h.outcome.status == 200 ==>
            && k !in h.tree
            && (forall x :: x in t ==> (x in h.tree <==> !(k <= x)))
            && (forall x :: x in h.tree ==> x in t && h.tree[x] == t[x]))
      && Closed(h.tree)
  {
    var k := Resolve(cwd, FullPath(root, folderPath));
    if IsTruthy(folderPath) && !fault && CanRemoveTree(t, k) {
      RemoveTreeEffect(t, k);
    }
  }

  // ---------------------------------------------------------------------
  // The path

  /** The full path has no "//", collapsing it again changes nothing, and
      its non-empty segments are the root's followed by the folder path's. */
  lemma FullPathSegments(root: string, folderPath: JsValue)
    ensures NoDoubleSlash(FullPath(root, folderPath))
    ensures CollapseSlashes(FullPath(root, folderPath)) == FullPath(root, folderPath)
    ensures NonEmpty(Split(FullPath(root, folderPath), '/'))
         == NonEmpty(Split(root, '/')) + NonEmpty(Split(ToJsString(folderPath), '/'))
  {
    var s := ToJsString(folderPath);
    CollapseIdempotent(root + "/" + s);
    CollapseKeepsSegments(root + "/" + s);
    assert root + "/" + s == root + ['/'] + s;
    SplitAppend(root, s, '/');
    NonEmptyAppend(Split(root, '/'), Split(s, '/'));
  }

  /** Below a root that does not end in '/', the full path begins with the
      collapsed root and one '/'. */
  lemma FullPathUnderRoot(root: string, folderPath: JsValue)
    requires root != "" && root[|root| - 1] != '/'
    ensures StartsWith(FullPath(root, folderPath), CollapseSlashes(root) + "/")
  {
    CollapsePrefix(root, ToJsString(folderPath));
  }

  lemma CollapsePrefix(root: string, s: string)
    requires root != "" && root[|root| - 1] != '/'
    ensures StartsWith(CollapseSlashes(root + "/" + s), CollapseSlashes(root) + "/")
  {
    assert root + "/" + s == root + ("/" + s);
    CollapseAppend(root, "/" + s);
    var tail := CollapseSlashes("/" + s);
    assert tail[0] == '/';
    var r := CollapseSlashes(root);
    assert (r + tail)[..|r| + 1] == r + "/";
  }

  /** The handler's path always begins with "./user_uploads/" (as a string:
      ".." segments in the folder path can still lead outside the upload
      root, which nothing checks). */
  lemma ImagesDirFullPath(folderPath: JsValue)
    ensures StartsWith(FullPath(ImagesDir, folderPath), ImagesDir + "/")
  {
    assert ImagesDir == ['.', '/', 'u', 's', 'e', 'r', '_', 'u', 'p', 'l', 'o', 'a', 'd', 's'];
    assert NoDoubleSlash(ImagesDir);
    CollapseNoDouble(ImagesDir);
    FullPathUnderRoot(ImagesDir, folderPath);
  }
}
