# DenoImageServer upload manager, modelled in Dafny

DenoImageServer's upload manager is a Deno/Fresh web application. It keeps
uploaded images in a folder tree under one upload root (`./user_uploads`,
and `./static/images` for one route). This project models the parts of it
that decide what happens to that tree and what the user is told:

- **The folder and image routes.** Each `POST` handler below reads a JSON
  body, checks it, builds paths with Deno's `std/path` (`join`, `normalize`,
  `dirname`) or with a template literal plus `replace(/\/+/g, '/')`, calls
  the file system and answers with a status and a body:
  - `api/create`;
  - `api/folder/create`;
  - `api/folder/delete`;
  - `api/folder/renameFolder`;
  - `api/folder/move`;
  - `api/images/delete`.
- **The MIME classifier** (`getImageMimeType`, `isImageFile`). It maps a file
  name's lower-cased extension to an image content type, or to
  `application/octet-stream`.
- **The breadcrumb bar** (`BreadcrumbNavigation`). It shows one link for the
  root and one per folder of the current path. Each link navigates to the
  path up to and including that folder.

The model is organised in these modules:

- `Strings`: split, join, `filter(Boolean)`, lower-casing, slash collapsing.
- `PosixPath`: POSIX `normalize`, `join`, `dirname`. A normalised path is
  shown to be a rendering of clean segments, which the other proofs use.
- `JsValues`: the JSON values a body can hold, JavaScript truthiness, and
  the string a template literal makes of a value.
- `FileTree`: the file system as a map from locations (segment sequences) to
  files and directories, closed under parents. It holds the effects of
  `exists`, `ensureDir`, `Deno.remove` and `Deno.rename`, and a `FileSystem`
  class whose methods update the tree in place.
- `Indexing`: the positions of a sequence of flags that hold a given value, and
  the entries picked at those positions. The report lemmas use them to say
  which items a list holds and in what order.
- `Http`: response bodies and outcomes. An outcome is a response, or an
  exception that escapes the handler.
- One module per route: `ApiCreate`, `FolderCreate`, `FolderDelete`,
  `FolderRename`, `FolderMove`, `ImagesDelete`.

Each route has two parts:

- a specification function that gives the answer and the new tree for any
  request and starting tree;
- a handler method of the route's module that takes the `FileSystem`
  object, updates its tree in place, and is proved to produce exactly that
  pair.

Lemmas then state what the answer means: which status comes back in which
case, what the tree looks like afterwards, and how the reports partition the
items. Operating-system failures that the model cannot derive from the tree
are parameters: a `fault` flag per call, or a function from item index to
fault for the batch routes.

## Model

| member | source | states |
|---|---|---|
| Strings.CollapseSlashes | image-uploader/routes/api/folder/delete.ts:12 | the result of `replace(/\/+/g, '/')` has no two adjacent '/', is no longer than the input, and starts and ends with the same characters as the input (so it ends in '/' exactly when the input does) |
| Strings.CollapseIdempotent | image-uploader/routes/api/folder/create.ts:13 | collapsing slashes a second time changes nothing |
| Strings.CollapseKeepsSegments | image-uploader/routes/api/folder/delete.ts:12 | collapsing slashes keeps the non-empty '/'-separated pieces of the path, in order |
| Strings.JoinSplit | image-uploader/islands/BreadcrumbNavigation.tsx:33 | joining the pieces of a split with the same separator gives back the original string |
| Strings.SplitJoin | image-uploader/islands/BreadcrumbNavigation.tsx:33 | splitting a join of separator-free pieces gives back those pieces |
| PosixPath.NormalizeIsRender | image-uploader/routes/api/folder/move.ts:22 | every normalised path is the rendering of clean segments (no "", no ".", ".." only at the front of a relative path), absolute exactly when the input starts with '/' |
| PosixPath.NormalizeIdempotent | image-uploader/routes/api/folder/move.ts:22 | `normalize` is idempotent and its result has no "//" |
| PosixPath.JoinPathsNormalized | image-uploader/routes/api/folder/move.ts:22-26 | the result of `join` is already normal, so the handler's `normalize(join(...))` equals `join(...)`; it has no "//" |
| PosixPath.RenderNoDoubleSlash | image-uploader/routes/api/folder/move.ts:22 | a rendered path is non-empty, has no "//", starts with '/' exactly when it is absolute, and (unless it is "/") ends with '/' exactly when it keeps a trailing separator |
| PosixPath.DirnameRender | image-uploader/routes/api/folder/move.ts:37 | `dirname` of a normal path drops its last segment, whatever the trailing separator |
| PosixPath.JoinName | image-uploader/routes/api/folder/renameFolder.ts:19 | joining a folder with a plain name appends that name as one more segment |
| PosixPath.LastPieceRender | image-uploader/routes/api/folder/move.ts:23 | the last '/'-piece of a rendered path is its last segment |
| PosixPath.SiblingPath | image-uploader/routes/api/folder/renameFolder.ts:17-19 | for any path `p`, `join(dirname(normalize(p)), name)` has `dirname(normalize(p))` as its parent and `name` as its last piece |
| PosixPath.NormalizeAppendName | image-uploader/routes/api/folder/move.ts:25-26 | appending "/" and a plain name to a path appends exactly one segment to its normal form and drops a trailing separator |
| PosixPath.JoinPathsAppendName | image-uploader/routes/api/create.ts:14 | `join(..., name)` is `join(...)` with the segment `name` added |
| JsValues.Decimal | image-uploader/routes/api/folder/move.ts:50 | the decimal text of a count is non-empty and all digits |
| JsValues.DecimalRoundTrip | image-uploader/routes/api/folder/move.ts:50 | reading back the decimal text of a count gives the count |
| ImageUtils.Extname | image-uploader/utils/imageUtils.ts:4 | the extension is "" or starts with its only '.', and holds no '/' |
| ImageUtils.GetImageMimeType | image-uploader/utils/imageUtils.ts:3-24 | the result is one of the eight content types, and is not `application/octet-stream` exactly when the lower-cased extension is one of the seven image extensions |
| ImageUtils.TableEntries | image-uploader/utils/imageUtils.ts:5-23 | the switch maps .jpg and .jpeg to image/jpeg, .png, .gif, .webp, .svg, .tiff and .bmp to their image types, and every other extension to application/octet-stream |
| ImageUtils.IsImageFileIffListed | image-uploader/utils/imageUtils.ts:26-29 | a file is an image exactly when its lower-cased extension is in the image table |
| ImageUtils.LastExtensionDecides | image-uploader/utils/imageUtils.ts:4-5 | for `name.e` the extension is ".e" and only the lower-cased last extension decides the type |
| ImageUtils.NoDotNoExtension | image-uploader/utils/imageUtils.ts:4 | a name without '.' has no extension and is not an image |
| ImageUtils.DotFileNoExtension | image-uploader/utils/imageUtils.ts:4 | a dot-file such as ".png" has no extension and gets application/octet-stream |
| ImageUtils.UpperCaseExample | image-uploader/utils/imageUtils.ts:4-7 | "photo.JPG" is image/jpeg and an image file (case is ignored) |
| ImageUtils.DoubleExtensionExample | image-uploader/utils/imageUtils.ts:4 | "a.png.txt" is application/octet-stream: only the last extension counts |
| ImageUtils.TextNotListed | image-uploader/utils/imageUtils.ts:21-22 | ".txt" falls to the default branch |
| ImageUtils.NoExtensionExamples | image-uploader/utils/imageUtils.ts:4 | "archive" and ".png" are application/octet-stream |
| Breadcrumb.PathParts | image-uploader/islands/BreadcrumbNavigation.tsx:9 | every folder shown is a non-empty piece without '/' |
| Breadcrumb.Breadcrumbs | image-uploader/islands/BreadcrumbNavigation.tsx:14-40 | there is one crumb per folder plus the root crumb, which comes first and navigates to "" |
| Breadcrumb.CrumbTarget | image-uploader/islands/BreadcrumbNavigation.tsx:26-40 | crumb i shows folder i and navigates to the first i folders joined by '/': a clean relative path whose last piece is the folder shown |
| Breadcrumb.CrumbExtends | image-uploader/islands/BreadcrumbNavigation.tsx:33 | each crumb's target is the previous crumb's target plus "/" and the next folder |
| Breadcrumb.LastCrumbIsCurrent | image-uploader/islands/BreadcrumbNavigation.tsx:33 | for a clean non-empty current path, the last crumb navigates to the current path itself |
| Breadcrumb.RootOnlyIffNoFolder | image-uploader/islands/BreadcrumbNavigation.tsx:9 | only the root crumb is shown exactly when the current path consists of '/' only (or is empty) |
| Breadcrumb.CollapsedPathSameCrumbs | image-uploader/islands/BreadcrumbNavigation.tsx:9 | doubled slashes in the current path do not change the crumbs |
| FileTree.Resolve | image-uploader/routes/api/folder/move.ts:32 | a path string resolves, against the working directory, to a location of clean names |
| FileTree.ResolveChild | image-uploader/routes/api/create.ts:14-17 | a path with one more plain segment resolves to the child of the shorter path's location |
| FileTree.EnsureDirEffect | image-uploader/routes/api/folder/move.ts:37 | `ensureDir` leaves a closed tree in which the location and all its ancestors are directories, every old entry unchanged, and only ancestors of the location added |
| FileTree.EnsureDirIdempotent | image-uploader/routes/api/create.ts:17 | making sure of a directory twice is the same as once |
| FileTree.RemoveEffect | image-uploader/routes/api/images/delete.ts:19 | a non-recursive remove of a file or an empty directory leaves a closed tree without it |
| FileTree.RemoveTreeEffect | image-uploader/routes/api/folder/delete.ts:15 | a recursive remove takes away exactly the location and everything below it, leaves the rest unchanged, and keeps the tree closed |
| FileTree.RenameEffect | image-uploader/routes/api/folder/move.ts:40 | rename moves the source subtree under the target, keeps every entry outside both subtrees, adds nothing else, and keeps the tree closed |
| FileTree.RenameVacatesSource | image-uploader/routes/api/folder/renameFolder.ts:21 | after a rename to a different location the source is gone |
| FileTree.RenameParent | image-uploader/routes/api/folder/move.ts:40 | after a rename every entry's parent is a directory |
| FileTree.FileSystem.Exists | image-uploader/routes/api/folder/move.ts:32 | `exists` succeeds unless the call fails, and reports whether the resolved location is in the tree; the tree is unchanged |
| FileTree.FileSystem.EnsureDir | image-uploader/routes/api/folder/move.ts:37 | `ensureDir` succeeds exactly when no file stands on the path and the call does not fail; the new tree is the old one with the directories added, or unchanged |
| FileTree.FileSystem.Remove | image-uploader/routes/api/folder/delete.ts:15 | `Deno.remove` succeeds exactly when the location exists and (unless recursive) has no children; the new tree lacks the location (or its subtree), or is unchanged |
| FileTree.FileSystem.Rename | image-uploader/routes/api/folder/move.ts:40 | `Deno.rename` succeeds exactly when the rename is allowed; the new tree is the renamed one, or unchanged |
| ApiCreate.HandleCreate | image-uploader/routes/api/create.ts:8-26 | the handler's answer and resulting tree are those of the route's specification `CreateFolder` |
| ApiCreate.CreateAnswer | image-uploader/routes/api/create.ts:10-25 | 400 exactly when `folderName` is falsy; an escaping exception exactly when `folderName` is truthy and either field is not a string (`join` throws outside the `try`); 200 exactly when `ensureDir` can succeed; only a 200 changes the tree |
| ApiCreate.CreateEffect | image-uploader/routes/api/create.ts:17 | after a 200 the folder and all its ancestors are directories and nothing else changed |
| ApiCreate.CreateTwice | image-uploader/routes/api/create.ts:17-21 | creating the same folder again answers 200 and changes nothing |
| ApiCreate.TargetPathNormalized | image-uploader/routes/api/create.ts:14 | the folder path is normal and has no "//" |
| ApiCreate.TargetPathChild | image-uploader/routes/api/create.ts:14 | a plain folder name becomes the last piece of the path and a child of the current folder's location |
| FolderCreate.HandleCreateFolder | image-uploader/routes/api/folder/create.ts:7-25 | the handler's answer and resulting tree are those of the route's specification `CreateFolder` |
| FolderCreate.CreateFolderAnswer | image-uploader/routes/api/folder/create.ts:9-24 | 400 exactly when `folderName` is falsy, 200 exactly when `ensureDir` can succeed, 500 otherwise; after a 200 the folder and its ancestors are directories and nothing else changed |
| FolderCreate.CreateFolderTwice | image-uploader/routes/api/folder/create.ts:16-20 | creating the same folder again answers 200 and changes nothing |
| FolderCreate.FolderPathSegments | image-uploader/routes/api/folder/create.ts:13 | the folder path has no "//" and its pieces are those of the root, the current path's string and the folder name's string, in order |
| FolderCreate.EmptyCurrentPath | image-uploader/routes/api/folder/create.ts:13 | an empty current path makes the same folder path as leaving that part out |
| FolderCreate.EmptyCurrentPathTarget | image-uploader/routes/api/folder/create.ts:13 | with an empty current path a clean folder name lands directly under `./static/images` |
| FolderDelete.HandleDeleteFolder | image-uploader/routes/api/folder/delete.ts:6-27 | the handler's answer and resulting tree are those of the route's specification `DeleteFolder` |
| FolderDelete.DeleteFolderAnswer | image-uploader/routes/api/folder/delete.ts:8-26 | 400 exactly when `folderPath` is falsy (the root "" included), 200 exactly when the recursive remove can succeed, 500 otherwise; after a 200 exactly the folder's subtree is gone |
| FolderDelete.FullPathSegments | image-uploader/routes/api/folder/delete.ts:12 | the full path has no "//" and its pieces are the root's followed by those of the folder path's string |
| FolderDelete.FullPathUnderRoot | image-uploader/routes/api/folder/delete.ts:12 | the full path starts with the root and a '/' |
| FolderDelete.ImagesDirFullPath | image-uploader/routes/api/folder/delete.ts:3-12 | for the handler's root the full path starts with "./user_uploads/" |
| FolderRename.HandleRename | image-uploader/routes/api/folder/renameFolder.ts:7-39 | the handler's answer and resulting tree are those of the route's specification `RenameFolder`, whose 200 answer carries the new path sliced as written |
| FolderRename.RenameAnswer | image-uploader/routes/api/folder/renameFolder.ts:8-38 | 400 exactly when a field is falsy, 200 exactly when both are strings and the rename can succeed, 500 otherwise; only a 200 changes the tree, which stays closed |
| FolderRename.RenameMovesFolder | image-uploader/routes/api/folder/renameFolder.ts:17-21 | after a 200 the old folder's whole subtree sits under the new path, the old folder is gone, and everything else is unchanged |
| FolderRename.RenameKeepsParent | image-uploader/routes/api/folder/renameFolder.ts:17-19 | the new path has the old path's parent and ends in the new name |
| FolderRename.RenamedRelativePath | image-uploader/routes/api/folder/renameFolder.ts:23-27 | the relative path answered is the old relative path with its last folder replaced by the new name, and joining it to the root gives the new path |
| FolderRename.RenameAnswersSlice | image-uploader/routes/api/folder/renameFolder.ts:24-27 | a 200 answers "Folder renamed successfully" and the new path with its first `IMAGES_DIR.length + 1` characters cut off |
| FolderRename.TruncatedRelativePath | image-uploader/routes/api/folder/renameFolder.ts:17-24 | for a clean folder path, that answer is the renamed folder's path relative to the upload root without its first two characters |
| FolderRename.AsWrittenDropsTwo | image-uploader/routes/api/folder/renameFolder.ts:24 | the slice as written drops two characters more than the root prefix, so it never equals the relative path |
| FolderRename.AsWrittenTopLevel | image-uploader/routes/api/folder/renameFolder.ts:24 | for a top-level folder the true relative path is the new name, and the slice as written loses its first two characters |
| FolderRename.AsWrittenRenameExample | image-uploader/routes/api/folder/renameFolder.ts:24 | renaming "photos" to "trips" answers "ips" as written; the relative path is "trips" |
| FolderMove.HandleMove | image-uploader/routes/api/folder/move.ts:9-61 | the handler's answer and resulting tree are those of the route's specification `Move` |
| FolderMove.MoveItems | image-uploader/routes/api/folder/move.ts:18-60 | the loop over the items gives exactly the specification's answer and tree, whatever the upload root |
| FolderMove.MoveNext | image-uploader/routes/api/folder/move.ts:21-47 | one iteration keeps the loop invariant: the tree and both lists are those after the items so far |
| FolderMove.MoveOneItem | image-uploader/routes/api/folder/move.ts:22-46 | one item's `try` block ends in the result and tree the per-item specification gives |
| FolderMove.ReachedItems | image-uploader/routes/api/folder/move.ts:21-26 | the loop reaches every item exactly when all items (and the destination) are strings; otherwise it stops at the first one that is not, where `join` throws |
| FolderMove.MoveAtEffect | image-uploader/routes/api/folder/move.ts:30-46 | one item keeps the tree closed; a failed item leaves every entry in place; a moved item vacates its source |
| FolderMove.DestinationLayout | image-uploader/routes/api/folder/move.ts:23-37 | the destination path is the destination folder plus the file name, its `dirname` is that folder, and its last piece is the file name |
| FolderMove.MoveAtSucceeds | image-uploader/routes/api/folder/move.ts:32-42 | an item whose source exists, whose folder can be made and whose target is free is moved when no call fails |
| FolderMove.MoveItemSucceeds | image-uploader/routes/api/folder/move.ts:22-42 | the same for an item given as the request gives it |
| FolderMove.MoveAllStep | image-uploader/routes/api/folder/move.ts:21-47 | item i's result is decided on the tree left by the items before it |
| FolderMove.ResultOfItem | image-uploader/routes/api/folder/move.ts:21-47 | when the loop runs to the end, item i's result is the per-item step on the tree left by items 0..i-1 |
| FolderMove.MoveAllClosed | image-uploader/routes/api/folder/move.ts:21-47 | the batch keeps the tree closed |
| FolderMove.ReachedThrewAt | image-uploader/routes/api/folder/move.ts:21-26 | the first non-string item ends the loop there, whatever follows |
| FolderMove.ReportPartition | image-uploader/routes/api/folder/move.ts:18-47 | every item is listed once: an item that moved is in `movedItems`, a failed item is in `failedItems` with its cause, every listed entry comes from an item with that result, and the moved names plus the failed names are the items as a multiset; no failures exactly when all moved, nothing moved exactly when all failed |
| FolderMove.ReportCounts | image-uploader/routes/api/folder/move.ts:42-45 | the two lists' lengths add up to the number of items; either is empty exactly when every item had the other result |
| FolderMove.MovedInOrder | image-uploader/routes/api/folder/move.ts:21-42 | `movedItems` is exactly the items whose result is moved, in request order |
| FolderMove.FailedInOrder | image-uploader/routes/api/folder/move.ts:21-45 | `failedItems` is exactly the items whose result is failed, in request order, each with its own cause |
| FolderMove.ReportMultiset | image-uploader/routes/api/folder/move.ts:42-45 | the moved items and the failed items' names together are the request's items, duplicates counted |
| FolderMove.MovedMembers | image-uploader/routes/api/folder/move.ts:42 | an item lands in `movedItems` when it moved, and only items that moved are there |
| FolderMove.FailedMembers | image-uploader/routes/api/folder/move.ts:45 | an item lands in `failedItems` with its cause when it failed, and only failed items are there |
| FolderMove.MoveAnswer | image-uploader/routes/api/folder/move.ts:49-60 | the answer is 200 exactly when every item moved and 207 exactly when one failed; the message is "No items were moved" exactly when none moved; `movedItems` holds the moved items and `failedItems` the failed ones with their causes, both in request order, and together they name every item |
| FolderMove.ReportAnswer | image-uploader/routes/api/folder/move.ts:49-58 | the report is 200 exactly when no failure is listed, and its message is "No items were moved" exactly when no item is listed as moved |
| FolderMove.MoveRequestAnswer | image-uploader/routes/api/folder/move.ts:11-16 | the route answers 400 exactly when `items` is not a non-empty array or `destination` or `currentPath` is missing, and then the tree is unchanged; otherwise it answers 200 or 207, or throws |
| FolderMove.MoveMessageCount | image-uploader/routes/api/folder/move.ts:49-51 | the message is "Successfully moved " and the decimal count of moved items, then " item(s)" |
| ImagesDelete.HandleDelete | image-uploader/routes/api/images/delete.ts:7-39 | the handler's answer and resulting tree are those of the route's specification `Delete` |
| ImagesDelete.DeleteItems | image-uploader/routes/api/images/delete.ts:13-38 | the loop over the items gives exactly the specification's answer and tree, whatever the upload root |
| ImagesDelete.ReachedItems | image-uploader/routes/api/images/delete.ts:16-17 | the loop reaches every item exactly when all are strings, and otherwise stops at the first one that is not |
| ImagesDelete.ReachedThrewAt | image-uploader/routes/api/images/delete.ts:16-17 | the first non-string item ends the loop there, whatever follows |
| ImagesDelete.DeleteAllRemoves | image-uploader/routes/api/images/delete.ts:16-25 | the batch leaves the tree without exactly the locations whose removal succeeded |
| ImagesDelete.DeletedWasRemovable | image-uploader/routes/api/images/delete.ts:19-20 | an item reported deleted was removable in the tree its turn saw |
| ImagesDelete.DeleteAllClosed | image-uploader/routes/api/images/delete.ts:16-25 | the batch keeps the tree closed |
| ImagesDelete.SelectPartition | image-uploader/routes/api/images/delete.ts:13-25 | every item is listed once: a removed item is in `deletedItems`, one that failed in `failedItems`, every listed name comes from an item with that result, and the two lists together are the items as a multiset; no failures exactly when all succeeded, none deleted exactly when all failed |
| ImagesDelete.SelectCounts | image-uploader/routes/api/images/delete.ts:20-23 | the two lists' lengths add up to the number of items; either is empty exactly when every item had the other result |
| ImagesDelete.SelectInOrder | image-uploader/routes/api/images/delete.ts:16-24 | each list is exactly the items with its result, in request order |
| ImagesDelete.SelectMultiset | image-uploader/routes/api/images/delete.ts:20-23 | the deleted and the failed items together are the request's items, duplicates counted |
| ImagesDelete.SelectMembers | image-uploader/routes/api/images/delete.ts:20-23 | each item lands in the list of its own result, and each listed name comes from an item with that result |
| ImagesDelete.DeleteAnswer | image-uploader/routes/api/images/delete.ts:27-38 | the answer is 200 exactly when every removal succeeded and 207 exactly when one failed; the message is "No items were deleted" exactly when none succeeded; `deletedItems` and `failedItems` are exactly the items with each result, in request order, and together they are every item |
| ImagesDelete.DeleteRequestAnswer | image-uploader/routes/api/images/delete.ts:9-11 | the route answers 400 exactly when `items` is not a non-empty array, and then the tree is unchanged; otherwise it answers 200 or 207, or throws |
| ImagesDelete.DeleteMessageCount | image-uploader/routes/api/images/delete.ts:27-29 | the message is "Successfully deleted " and the decimal count of deleted items, then " item(s)" |

## Left out

- Reading and parsing the JSON body, response headers, `console` logging and
  the asynchronous scheduling of the handlers are not modelled. A request
  is given as its fields' JSON values.
- The upload, listing and image-serving routes (`api/upload.ts`,
  `api/list.ts`, `api/images/[name].ts`, `api/images/[...path].ts`), the
  page `routes/index.tsx`, the upload form, `fresh.gen.ts` and
  `image_server.ts` are not part of this model.
- The breadcrumb's markup and styling are left out. The model keeps the
  folder text and the path each link passes to `onNavigate`.
- Only POSIX paths are modelled; Windows separators and drive letters are not.
- Paths are resolved lexically against the working directory. Symbolic
  links, permissions, file contents and timestamps are not modelled.
- FileTree.Resolve drops a trailing '/' and folds "x/.." to nothing without
  asking the file system, and drops a "." segment. The real calls treat
  "a.png/" as a directory, which fails with ENOTDIR when a.png is a file;
  they walk through "x" before applying ".."; and `rmdir` of a path whose
  last segment is "." fails with EINVAL (POSIX `rmdir(2)`). The model
  therefore differs from the server wherever a route passes such a path to
  the operating system. The known cases are (a) to (f); the list is not
  claimed to be complete:
  - (a) ImagesDelete.Delete: the item "a.png/", where a.png is a file, is
    deleted and counted as deleted. The server's `Deno.remove` fails, the
    item is listed as failed, and the answer is 207.
  - (b) FolderDelete.DeleteFolder: the folder path "a.png/" removes the file
    a.png with a 200, and "a.png/.." removes the whole upload root with a
    200. The server answers 500 to both.
  - (c) FolderMove.Move: the source "a.png/" is found, so the later steps run on a.png, and the
    source "a.png/b" is reported as "Source file not found". For both, the
    server's `exists` rethrows the ENOTDIR error, so the item fails with the
    operating system's message.
  - (d) FolderCreate.CreateFolder: a current path "x/../y" with "x" missing
    creates only "y". The server's recursive `mkdir` also creates "x".
    (`api/create` is not affected, because `join` normalises "x/../y" to "y"
    before the call.)
  - (e) FolderRename.RenameFolder: the current path "a.png/", where a.png
    is a file, renames the file and answers 200. `join` keeps the trailing
    '/', so the server's `Deno.rename` fails with ENOTDIR and it answers
    500.
  - (f) FolderDelete.DeleteFolder: the folder path "photos/." (or ".")
    removes photos (or the whole upload root) with a 200. The template
    literal passes the "." on to the recursive `Deno.remove`, whose final
    `rmdir` fails with EINVAL: the server answers 500, the folder itself
    stays, and its contents may already be gone. "photos/.." likewise
    removes the upload root in the model, while the server at most empties
    it. A run of ".." that climbs above the file system's root is refused
    by the model with nothing changed, while the server may first remove
    what it can reach.
- Operating-system failures that the tree does not explain (permissions, a
  full disk, a race with another request) are a `fault` parameter per call.
  `error.message` is modelled only for the move route's own "Source file not
  found" error. The others are an opaque `OsError`.
- `Deno.rename` follows the rules of POSIX `rename(2)` only in outline. An
  existing target of the source's kind (a file, or an empty directory) is
  replaced; any other existing target makes the call fail. Cross-device
  moves are not modelled.
- JsValues.ToJsString: numbers are integers only (no fractions, NaN,
  Infinity or exponent notation). Every object converts to
  "[object Object]"; a custom `toString` is not modelled.
- Strings.ToLower: lower-cases ASCII letters only, not the full Unicode
  case mapping of `toLowerCase`.
- The routes do not check that a resolved path stays inside the upload root:
  ".." in a request can reach outside it. The model reproduces this and
  proves no containment property.
- The route lemmas are stated for any upload root; the handlers pass their
  own constant ("./user_uploads", or "./static/images" for
  `api/folder/create`).
- Statuses follow the code, not the intended design:
  - a missing file or folder is answered with 500 (or reported as a failed
    item), not 404;
  - a path outside the root is not rejected.

## Findings

| source | as written | input that shows it | evidently intended | confidence | as-written member | corrected member |
|---|---|---|---|---|---|---|
| image-uploader/routes/api/folder/renameFolder.ts:24 | `newPath.slice(IMAGES_DIR.length + 1)` drops 15 characters. `join` has already dropped the leading "./" of "./user_uploads", so the prefix in front of the relative path is 13 characters, "user_uploads/". | `currentPath` "photos", `newName` "trips": `newPath` is "user_uploads/trips" and the answer's `newPath` is "ips" | the new path relative to the upload root, "trips" (a slice of 13) | not executed | FolderRename.AsWrittenRenameExample | FolderRename.RenamedRelativePath |
