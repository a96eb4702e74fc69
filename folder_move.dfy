/** `POST /api/folder/move`: moves each selected item of the upload root
    into a destination folder (the root itself when the destination is ""),
    one at a time. An item that fails is reported with its error and the
    loop goes on; the answer lists the moved and the failed items and is 200
    when nothing failed, 207 otherwise. */
module FolderMove {
  import opened Strings
  import opened PosixPath
  import opened JsValues
  import opened FileTree
  import opened Http
  import opened Indexing

  const ImagesDir := "./user_uploads"

  /** The request check: `items` a non-empty array, `destination` and
      `currentPath` present (`currentPath` is not used further). */
  predicate ValidRequest(items: JsValue, currentPath: JsValue, destination: JsValue)
  {
    IsTruthy(items) && items.Array? && |items.elems| > 0 && !destination.Undefined? && !currentPath.Undefined?
  }

  const InvalidRequest := Response(400, JsonError("Invalid request: missing required fields"))

  /** `normalize(join(IMAGES_DIR, item))`, for the upload root `root`
      (the handler's is `ImagesDir`). */
  function SourcePath(root: string, item: string): string
  {
    Normalize(JoinPaths([root, item]))
  }

  /** `item.split('/').pop() || ''`: the last piece, "" included. */
  function FileName(item: string): string
  {
    LastPiece(item, '/')
  }

  /** The destination path: the file name under the destination folder, or
      under the upload root when the destination is "". */
  function DestPath(root: string, destination: string, item: string): string
  {
    if destination == "" then Normalize(JoinPaths([root, FileName(item)]))
    else Normalize(JoinPaths([root, destination, FileName(item)]))
  }

  /** The operating-system failure, if any, that strikes one item. */
  datatype IoFault = NoFault | StatFails | EnsureDirFails | RenameFails

  datatype ItemResult = Moved | Failed(cause: Cause)

  datatype ItemStep = ItemStep(result: ItemResult, tree: Tree)

  /** The locations one item's `try` block works on: the source path as
      written (for the error message), the source and destination locations,
      and the destination's folder, which is made sure of. */
  datatype Plan = Plan(source: string, from: Location, to: Location, folder: Location)

  function PlanOf(cwd: Location, root: string, item: string, destination: string): Plan
    requires NormalSegments(cwd, false)
  {
    var src, dst := SourcePath(root, item), DestPath(root, destination, item);
    Plan(src, Resolve(cwd, src), Resolve(cwd, dst), Resolve(cwd, Dirname(dst)))
  }

  /** The `try` block for one item: check that the source exists, make sure
      the destination's folder exists, rename the source to the
      destination. */
  function MoveAt(t: Tree, p: Plan, fault: IoFault): ItemStep
  {
    if fault == StatFails then ItemStep(Failed(OsError), t)
    else if p.from !in t then ItemStep(Failed(SourceNotFound(p.source)), t)
    else if fault == EnsureDirFails || !CanEnsureDir(t, p.folder) then ItemStep(Failed(OsError), t)
    else
      var t1 := WithDir(t, p.folder);
      if fault == RenameFails || !CanRename(t1, p.from, p.to) then ItemStep(Failed(OsError), t1)
      else ItemStep(Moved, Renamed(t1, p.from, p.to))
  }

  /** Every item is a string. */
  predicate AllStrings(items: seq<JsValue>)
    decreases |items|
  {
    |items| == 0 || (AllStrings(items[..|items| - 1]) && items[|items| - 1].Str?)
  }

  /** The items the loop gets to, as strings: all of them, or those before
      the first item that is not a string (or every item, when the
      destination is not a string). There `join`, which runs before the
      `try`, throws, and the exception escapes the handler. */
  datatype Reached = Reached(names: seq<string>, threw: bool)

  function ReachedItems(items: seq<JsValue>, destination: JsValue): (r: Reached)
    ensures |r.names| <= |items|
    ensures forall j :: 0 <= j < |r.names| ==> items[j] == Str(r.names[j])
    ensures !r.threw ==> |r.names| == |items| && AllStrings(items)
    ensures r.threw ==> |r.names| < |items| && (!items[|r.names|].Str? || !destination.Str?)
    ensures |r.names| > 0 ==> destination.Str?
    decreases |items|
  {
    if |items| == 0 then Reached([], false)
    else
      var n := |items| - 1;
      var prev := ReachedItems(items[..n], destination);
      if prev.threw then prev
      else if !items[n].Str? || !destination.Str? then Reached(prev.names, true)
      else Reached(prev.names + [items[n].s], false)
  }

  /** The plans of the items the loop gets to, in order. */
  function PlansFor(cwd: Location, root: string, names: seq<string>, destination: JsValue): (plans: seq<Plan>)
    requires NormalSegments(cwd, false)
    requires |names| == 0 || destination.Str?
  {
    seq(|names|, j requires 0 <= j < |names| => PlanOf(cwd, root, names[j], destination.s))
  }

  /** The loop so far: one result per item handled, and the tree. */
  datatype Run = Run(results: seq<ItemResult>, tree: Tree)

  /** The `try` blocks of the loop, item `i` meeting `faults(i)`. */
  function MoveAll(t: Tree, plans: seq<Plan>, faults: nat -> IoFault): (run: Run)
    ensures |run.results| == |plans|
    decreases |plans|
  {
    if |plans| == 0 then Run([], t)
    else
      var n := |plans| - 1;
      var prev := MoveAll(t, plans[..n], faults);
      var step := MoveAt(prev.tree, plans[n], faults(n));
      Run(prev.results + [step.result], step.tree)
  }

  /** `movedItems`: the items that moved, in request order. */
  function MovedItems(items: seq<JsValue>, results: seq<ItemResult>): seq<string>
    requires |results| == |items|
    requires AllStrings(items)
    decreases |items|
  {
    if |items| == 0 then []
    else
      var n := |items| - 1;
      MovedItems(items[..n], results[..n]) + (if results[n].Moved? then [items[n].s] else [])
  }

  /** `failedItems`: the items that failed with their errors, in request
      order. */
  function FailedItems(items: seq<JsValue>, results: seq<ItemResult>): seq<MoveFailure>
    requires |results| == |items|
    requires AllStrings(items)
    decreases |items|
  {
    if |items| == 0 then []
    else
      var n := |items| - 1;
      FailedItems(items[..n], results[..n])
        + (if results[n].Failed? then [MoveFailure(items[n].s, results[n].cause)] else [])
  }

  /** The items' strings, in request order. */
  function Names(items: seq<JsValue>): (r: seq<string>)
    requires AllStrings(items)
    ensures |r| == |items| && forall j :: 0 <= j < |items| ==> items[j] == Str(r[j])
    decreases |items|
  {
    if |items| == 0 then [] else Names(items[..|items| - 1]) + [items[|items| - 1].s]
  }

  /** Which items moved. */
  function MovedFlags(results: seq<ItemResult>): seq<bool>
  {
    seq(|results|, j requires 0 <= j < |results| => results[j].Moved?)
  }

  /** The items named by a list of failures. */
  function FailureNames(failed: seq<MoveFailure>): seq<string>
  {
    seq(|failed|, k requires 0 <= k < |failed| => failed[k].item)
  }

  function MoveMessage(moved: nat): string
  {
    if moved > 0 then "Successfully moved " + Decimal(moved) + " item(s)" else "No items were moved"
  }

  function Report(moved: seq<string>, failed: seq<MoveFailure>): Outcome
  {
    Response(if |failed| == 0 then 200 else 207, JsonMoveReport(MoveMessage(|moved|), moved, failed))
  }

  /** The answer once the loop is over: the exception, if one escaped, or
      the report of every item's result. */
  function Conclude(items: seq<JsValue>, threw: bool, results: seq<ItemResult>): Outcome
    requires !threw ==> |results| == |items| && AllStrings(items)
  {
    if threw then Uncaught else Report(MovedItems(items, results), FailedItems(items, results))
  }

  /** The whole request, for the upload root `root` (the handler's is
      `ImagesDir`). */
  function Move(cwd: Location, root: string, t: Tree, items: JsValue, currentPath: JsValue, destination: JsValue,
                faults: nat -> IoFault): Handled
    requires NormalSegments(cwd, false)
  {
    if !ValidRequest(items, currentPath, destination) then Handled(InvalidRequest, t)
    else
      var reached := ReachedItems(items.elems, destination);
      var run := MoveAll(t, PlansFor(cwd, root, reached.names, destination), faults);
      Handled(Conclude(items.elems, reached.threw, run.results), run.tree)
  }

  /** The handler: the loop over the items, with the upload root the source
      fixes. */
  method HandleMove(fs: FileSystem, items: JsValue, currentPath: JsValue, destination: JsValue,
                    faults: nat -> IoFault) returns (outcome: Outcome)
    requires fs.Valid()
    modifies fs
    ensures fs.Valid()
    ensures Handled(outcome, fs.tree) == Move(fs.cwd, ImagesDir, old(fs.tree), items, currentPath, destination, faults)
  {
    outcome := MoveItems(fs, ImagesDir, items, currentPath, destination, faults);
  }

  /** The loop, moving the items one by one on the file system. */
  method MoveItems(fs: FileSystem, root: string, items: JsValue, currentPath: JsValue, destination: JsValue,
                   faults: nat -> IoFault) returns (outcome: Outcome)
    requires fs.Valid()
    modifies fs
    ensures fs.Valid()
    ensures Handled(outcome, fs.tree) == Move(fs.cwd, root, old(fs.tree), items, currentPath, destination, faults)
  {
    if !ValidRequest(items, currentPath, destination) {
      return InvalidRequest;
    }
    var elems := items.elems;
    var movedItems: seq<string> := [];
    var failedItems: seq<MoveFailure> := [];
    var i := 0;
    ProgressStart(fs.cwd, root, fs.tree, elems, destination, faults);
    while i < |elems|
      invariant 0 <= i <= |elems|
      invariant fs.Valid()
      invariant Progress(fs.cwd, root, old(fs.tree), elems, destination, faults, i, fs.tree, movedItems, failedItems)
    {
      var item := elems[i];
      if !item.Str? || !destination.Str? {
        ProgressThrew(fs.cwd, root, old(fs.tree), items, currentPath, destination, faults, i, fs.tree,
                      movedItems, failedItems);
        return Uncaught;
      }
      movedItems, failedItems := MoveNext(fs, root, old(fs.tree), elems, destination, faults, i,
                                          movedItems, failedItems);
      i := i + 1;
    }
    ProgressDone(fs.cwd, root, old(fs.tree), items, currentPath, destination, faults, fs.tree,
                 movedItems, failedItems);
    outcome := Report(movedItems, failedItems);
  }

  /** The body of the loop for item `i`, a string: its `try` block, then
      the push of its name onto `movedItems` or of its error onto
      `failedItems`. */
  method MoveNext(fs: FileSystem, root: string, ghost t: Tree, items: seq<JsValue>, destination: JsValue,
                  faults: nat -> IoFault, i: nat, moved: seq<string>, failed: seq<MoveFailure>)
      returns (moved': seq<string>, failed': seq<MoveFailure>)
    requires fs.Valid() && i < |items| && items[i].Str? && destination.Str?
    requires Progress(fs.cwd, root, t, items, destination, faults, i, fs.tree, moved, failed)
    modifies fs
    ensures fs.Valid()
    ensures Progress(fs.cwd, root, t, items, destination, faults, i + 1, fs.tree, moved', failed')
  {
    ghost var tree := fs.tree;
    var item := items[i].s;
    var result := MoveOneItem(fs, root, item, destination.s, faults(i));
    ProgressStep(fs.cwd, root, t, items, destination, faults, i, tree, moved, failed,
                 result, fs.tree, moved + (if result.Moved? then [item] else []),
                 failed + (if result.Failed? then [MoveFailure(item, result.cause)] else []));
    moved', failed' := moved, failed;
    if result.Moved? {
      moved' := moved + [item];
    } else {
      failed' := failed + [MoveFailure(item, result.cause)];
    }
  }

  /** What the loop has done after `i` items: none threw, the tree is the
      one their `try` blocks left, and the lists hold their results. */
  ghost predicate Progress(cwd: Location, root: string, t: Tree, items: seq<JsValue>, destination: JsValue,
                           faults: nat -> IoFault, i: nat, tree: Tree, moved: seq<string>, failed: seq<MoveFailure>)
    requires NormalSegments(cwd, false) && i <= |items|
  {
    var reached := ReachedItems(items[..i], destination);
    var run := MoveAll(t, PlansFor(cwd, root, reached.names, destination), faults);
    && !reached.threw && tree == run.tree
    && moved == MovedItems(items[..i], run.results)
    && failed == FailedItems(items[..i], run.results)
  }

  /** Before the loop nothing is done. */
  lemma ProgressStart(cwd: Location, root: string, t: Tree, items: seq<JsValue>, destination: JsValue,
                      faults: nat -> IoFault)
    requires NormalSegments(cwd, false)
    ensures Progress(cwd, root, t, items, destination, faults, 0, t, [], [])
  {
    assert items[..0] == [];
  }

  /** An item that is not a string ends the request with the exception. */
  lemma ProgressThrew(cwd: Location, root: string, t: Tree, items: JsValue, currentPath: JsValue,
                      destination: JsValue, faults: nat -> IoFault, i: nat, tree: Tree,
                      moved: seq<string>, failed: seq<MoveFailure>)
    requires NormalSegments(cwd, false) && ValidRequest(items, currentPath, destination)
    requires i < |items.elems| && (!items.elems[i].Str? || !destination.Str?)
    requires Progress(cwd, root, t, items.elems, destination, faults, i, tree, moved, failed)
    ensures Move(cwd, root, t, items, currentPath, destination, faults) == Handled(Uncaught, tree)
  {
    ReachedThrewAt(items.elems, destination, i);
  }

  /** After the last item the answer is the report of the lists. */
  lemma ProgressDone(cwd: Location, root: string, t: Tree, items: JsValue, currentPath: JsValue,
                     destination: JsValue, faults: nat -> IoFault, tree: Tree,
                     moved: seq<string>, failed: seq<MoveFailure>)
    requires NormalSegments(cwd, false) && ValidRequest(items, currentPath, destination)
    requires Progress(cwd, root, t, items.elems, destination, faults, |items.elems|, tree, moved, failed)
    ensures Move(cwd, root, t, items, currentPath, destination, faults) == Handled(Report(moved, failed), tree)
  {
    assert items.elems[..|items.elems|] == items.elems;
  }

  /** One string item handled by its `try` block keeps `Progress`. */
  lemma ProgressStep(cwd: Location, root: string, t: Tree, items: seq<JsValue>, destination: JsValue,
                     faults: nat -> IoFault, i: nat, tree: Tree, moved: seq<string>, failed: seq<MoveFailure>,
                     result: ItemResult, tree': Tree, moved': seq<string>, failed': seq<MoveFailure>)
    requires NormalSegments(cwd, false) && i < |items| && items[i].Str? && destination.Str?
    requires Progress(cwd, root, t, items, destination, faults, i, tree, moved, failed)
    requires ItemStep(result, tree') == MoveAt(tree, PlanOf(cwd, root, items[i].s, destination.s), faults(i))
    requires moved' == moved + (if result.Moved? then [items[i].s] else [])
    requires failed' == failed + (if result.Failed? then [MoveFailure(items[i].s, result.cause)] else [])
    ensures Progress(cwd, root, t, items, destination, faults, i + 1, tree', moved', failed')
  {
    var names := ReachedItems(items[..i], destination).names;
    var before := PlansFor(cwd, root, names, destination);
    var prev := MoveAll(t, before, faults);
    ReachedSnoc(items, destination, i);
    PlansForSnoc(cwd, root, names, items[i].s, destination);
    MoveAllSnoc(t, before, PlanOf(cwd, root, items[i].s, destination.s), faults);
    ReportSnoc(items, prev.results, i, result);
  }

  /** The body of the loop for one item that is a string. */
  method MoveOneItem(fs: FileSystem, root: string, item: string, destination: string, fault: IoFault)
      returns (result: ItemResult)
    requires fs.Valid()
    modifies fs
    ensures fs.Valid()
    ensures ItemStep(result, fs.tree) == MoveAt(old(fs.tree), PlanOf(fs.cwd, root, item, destination), fault)
  {
    var sourcePath := SourcePath(root, item);
    var destPath := DestPath(root, destination, item);
    var statOk, found := fs.Exists(sourcePath, fault == StatFails);
    if !statOk {
      result := Failed(OsError);
    } else if !found {
      result := Failed(SourceNotFound(sourcePath));
    } else {
      var made := fs.EnsureDir(Dirname(destPath), fault == EnsureDirFails);
      if !made {
        result := Failed(OsError);
      } else {
        var renamed := fs.Rename(sourcePath, destPath, fault == RenameFails);
        result := if renamed then Moved else Failed(OsError);
      }
    }
  }

  // ---------------------------------------------------------------------
  // The loop

  /** One more string item is reached, after the others. */
  lemma ReachedSnoc(items: seq<JsValue>, destination: JsValue, i: nat)
    requires i < |items| && !ReachedItems(items[..i], destination).threw
    requires items[i].Str? && destination.Str?
    ensures ReachedItems(items[..i + 1], destination)
         == Reached(ReachedItems(items[..i], destination).names + [items[i].s], false)
  {
    assert items[..i + 1][..i] == items[..i];
  }

  /** The first item that is not a string (or a destination that is not
      one) ends the loop with an exception; the items after it are never
      looked at. */
  lemma ReachedThrewAt(items: seq<JsValue>, destination: JsValue, i: nat)
    requires i < |items| && !ReachedItems(items[..i], destination).threw
    requires !items[i].Str? || !destination.Str?
    ensures ReachedItems(items, destination) == Reached(ReachedItems(items[..i], destination).names, true)
  {
    assert items[..i + 1][..i] == items[..i];
    ReachedThrewStays(items, destination, i + 1);
  }

  /** Once an exception escaped, the rest of the items are not looked at. */
  lemma {:induction false} ReachedThrewStays(items: seq<JsValue>, destination: JsValue, k: nat)
    requires k <= |items| && ReachedItems(items[..k], destination).threw
    ensures ReachedItems(items, destination) == ReachedItems(items[..k], destination)
    decreases |items| - k
  {
    if k < |items| {
      var n := |items| - 1;
      assert items[..n][..k] == items[..k];
      ReachedThrewStays(items[..n], destination, k);
    } else {
      assert items[..k] == items;
    }
  }

  lemma PlansForSnoc(cwd: Location, root: string, names: seq<string>, x: string, destination: JsValue)
    requires NormalSegments(cwd, false) && destination.Str?
    ensures PlansFor(cwd, root, names + [x], destination)
         == PlansFor(cwd, root, names, destination) + [PlanOf(cwd, root, x, destination.s)]
  {
    var longer, shorter := PlansFor(cwd, root, names + [x], destination), PlansFor(cwd, root, names, destination);
    var last := PlanOf(cwd, root, x, destination.s);
    assert |longer| == |shorter| + 1;
    forall j | 0 <= j < |longer|
      ensures longer[j] == (shorter + [last])[j]
    {
      if j < |names| {
        assert (names + [x])[j] == names[j];
      } else {
        assert (names + [x])[j] == x;
      }
    }
  }

  /** The loop with one more item is the loop so far, then that item's
      `try` block on the tree it left. */
  lemma MoveAllSnoc(t: Tree, plans: seq<Plan>, p: Plan, faults: nat -> IoFault)
    ensures var prev := MoveAll(t, plans, faults);
      var step := MoveAt(prev.tree, p, faults(|plans|));
      MoveAll(t, plans + [p], faults) == Run(prev.results + [step.result], step.tree)
  {
    assert (plans + [p])[..|plans|] == plans;
  }

  /** The loop processes every item, whatever happened to the earlier ones:
      the result of item `i` is its own `try` block run on the tree that the
      items before it left. */
  lemma {:induction false} MoveAllStep(t: Tree, plans: seq<Plan>, faults: nat -> IoFault, i: nat)
    requires i < |plans|
    ensures MoveAll(t, plans, faults).results[i]
         == MoveAt(MoveAll(t, plans[..i], faults).tree, plans[i], faults(i)).result
    decreases |plans|
  {
    var n := |plans| - 1;
    if i < n {
      MoveAllStep(t, plans[..n], faults, i);
      assert plans[..n][..i] == plans[..i];
    } else {
      assert plans[..i] == plans[..n];
    }
  }

  /** In a loop that raised no exception, item `i` is a string and its
      result is its own `try` block, on its own paths, run on the tree the
      items before it left. */
  lemma ResultOfItem(cwd: Location, root: string, t: Tree, items: seq<JsValue>, destination: JsValue,
                   faults: nat -> IoFault, i: nat)
    requires NormalSegments(cwd, false) && i < |items|
    requires !ReachedItems(items, destination).threw
    ensures items[i].Str? && destination.Str?
    ensures var plans := PlansFor(cwd, root, ReachedItems(items, destination).names, destination);
      MoveAll(t, plans, faults).results[i]
      == MoveAt(MoveAll(t, plans[..i], faults).tree, PlanOf(cwd, root, items[i].s, destination.s), faults(i)).result
  {
    var plans := PlansFor(cwd, root, ReachedItems(items, destination).names, destination);
    MoveAllStep(t, plans, faults, i);
  }

  /** The tree stays well formed through the whole loop. */
  lemma {:induction false} MoveAllClosed(t: Tree, plans: seq<Plan>, faults: nat -> IoFault)
    requires Closed(t)
    ensures Closed(MoveAll(t, plans, faults).tree)
    decreases |plans|
  {
    if |plans| > 0 {
      var n := |plans| - 1;
      MoveAllClosed(t, plans[..n], faults);
      MoveAtEffect(MoveAll(t, plans[..n], faults).tree, plans[n], faults(n));
    }
  }

  /** The lists of the answer grow with the loop. */
  lemma ReportSnoc(items: seq<JsValue>, results: seq<ItemResult>, i: nat, r: ItemResult)
    requires i < |items| && |results| == i && AllStrings(items[..i]) && items[i].Str?
    ensures AllStrings(items[..i + 1])
    ensures MovedItems(items[..i + 1], results + [r]) == MovedItems(items[..i], results) + (if r.Moved? then [items[i].s] else [])
    ensures FailedItems(items[..i + 1], results + [r])
         == FailedItems(items[..i], results) + (if r.Failed? then [MoveFailure(items[i].s, r.cause)] else [])
  {
    assert items[..i + 1][..i] == items[..i];
    assert (results + [r])[..i] == results;
  }

  // ---------------------------------------------------------------------
  // The report

  /** Every item is reported exactly once: the two lists together name the
      request's items, each item sits in the list of its own result (a
      failure with its cause), and each listed entry comes from an item with
      that result. */
  lemma ReportPartition(items: seq<JsValue>, results: seq<ItemResult>)
    requires |results| == |items|
    requires AllStrings(items)
    ensures |MovedItems(items, results)| + |FailedItems(items, results)| == |items|
    ensures |FailedItems(items, results)| == 0 <==> forall i :: 0 <= i < |results| ==> results[i].Moved?
    ensures |MovedItems(items, results)| == 0 <==> forall i :: 0 <= i < |results| ==> results[i].Failed?
    ensures multiset(MovedItems(items, results)) + multiset(FailureNames(FailedItems(items, results)))
         == multiset(Names(items))
    ensures forall j :: 0 <= j < |items| && results[j].Moved? ==> Names(items)[j] in MovedItems(items, results)
    ensures forall j :: 0 <= j < |items| && results[j].Failed? ==>
              MoveFailure(Names(items)[j], results[j].cause) in FailedItems(items, results)
    ensures forall x :: x in MovedItems(items, results) ==>
              exists j :: 0 <= j < |items| && Names(items)[j] == x && results[j].Moved?
    ensures forall f :: f in FailedItems(items, results) ==>
              exists j :: 0 <= j < |items| && results[j].Failed? && f == MoveFailure(Names(items)[j], results[j].cause)
  {
    ReportCounts(items, results);
    ReportMultiset(items, results);
    MovedMembers(items, results);
    FailedMembers(items, results);
  }

  lemma {:induction false} ReportCounts(items: seq<JsValue>, results: seq<ItemResult>)
    requires |results| == |items|
    requires AllStrings(items)
    ensures |MovedItems(items, results)| + |FailedItems(items, results)| == |items|
    ensures |FailedItems(items, results)| == 0 <==> forall i :: 0 <= i < |results| ==> results[i].Moved?
    ensures |MovedItems(items, results)| == 0 <==> forall i :: 0 <= i < |results| ==> results[i].Failed?
    decreases |items|
  {
    if |items| > 0 {
      var n := |items| - 1;
      ReportCounts(items[..n], results[..n]);
      assert forall i :: 0 <= i < n ==> results[..n][i] == results[i];
    }
  }

  /** The prefix of the items has the prefix of the names and flags. */
  lemma PrefixNames(items: seq<JsValue>, results: seq<ItemResult>, n: nat)
    requires |results| == |items| && AllStrings(items) && n == |items| - 1
    ensures AllStrings(items[..n])
    ensures Names(items) == Names(items[..n]) + [items[n].s]
    ensures MovedFlags(results[..n]) == MovedFlags(results)[..n]
  {
  }

  /** The moved items are the items whose result is `Moved`, in request
      order. */
  lemma {:induction false} MovedInOrder(items: seq<JsValue>, results: seq<ItemResult>)
    requires |results| == |items| && AllStrings(items)
    ensures MovedItems(items, results) == Pick(Names(items), Positions(MovedFlags(results), true))
    decreases |items|
  {
    if |items| > 0 {
      var n := |items| - 1;
      PrefixNames(items, results, n);
      MovedInOrder(items[..n], results[..n]);
      assert Names(items)[..n] == Names(items[..n]);
      PickSnoc(Names(items), n, Positions(MovedFlags(results)[..n], true), results[n].Moved?);
    }
  }

  /** The failures are the items whose result is `Failed`, in request order,
      each with its own cause. */
  lemma {:induction false} FailedInOrder(items: seq<JsValue>, results: seq<ItemResult>)
    requires |results| == |items| && AllStrings(items)
    ensures var qs, f := Positions(MovedFlags(results), false), FailedItems(items, results);
      && |f| == |qs|
      && forall k :: 0 <= k < |qs| ==> results[qs[k]].Failed? && f[k] == MoveFailure(Names(items)[qs[k]], results[qs[k]].cause)
    decreases |items|
  {
    if |items| > 0 {
      var n := |items| - 1;
      PrefixNames(items, results, n);
      FailedInOrder(items[..n], results[..n]);
      var qs0, f0 := Positions(MovedFlags(results[..n]), false), FailedItems(items[..n], results[..n]);
      var qs, f := Positions(MovedFlags(results), false), FailedItems(items, results);
      assert qs == qs0 + (if results[n].Moved? then [] else [n]);
      assert f == f0 + (if results[n].Failed? then [MoveFailure(items[n].s, results[n].cause)] else []);
      forall k | 0 <= k < |qs|
        ensures results[qs[k]].Failed? && f[k] == MoveFailure(Names(items)[qs[k]], results[qs[k]].cause)
      {
        if k < |qs0| {
          assert qs[k] == qs0[k] < n && f[k] == f0[k];
          assert results[..n][qs0[k]] == results[qs[k]];
          assert Names(items[..n])[qs0[k]] == Names(items)[qs[k]];
        }
      }
    }
  }

  /** One more item extends the list of its own result by its name. */
  lemma ReportStep(items: seq<JsValue>, results: seq<ItemResult>, n: nat)
    requires |results| == |items| && AllStrings(items) && n == |items| - 1
    ensures AllStrings(items[..n])
    ensures MovedItems(items, results)
         == MovedItems(items[..n], results[..n]) + (if results[n].Moved? then [items[n].s] else [])
    ensures FailureNames(FailedItems(items, results))
         == FailureNames(FailedItems(items[..n], results[..n])) + (if results[n].Moved? then [] else [items[n].s])
    ensures Names(items) == Names(items[..n]) + [items[n].s]
  {
    var f0 := FailedItems(items[..n], results[..n]);
    var extra := if results[n].Failed? then [MoveFailure(items[n].s, results[n].cause)] else [];
    assert FailedItems(items, results) == f0 + extra;
    assert FailureNames(f0 + extra) == FailureNames(f0) + FailureNames(extra);
  }

  /** The moved items and the failed items' names are together the
      request's items, duplicates counted. */
  lemma {:induction false} ReportMultiset(items: seq<JsValue>, results: seq<ItemResult>)
    requires |results| == |items| && AllStrings(items)
    ensures multiset(MovedItems(items, results)) + multiset(FailureNames(FailedItems(items, results)))
         == multiset(Names(items))
    decreases |items|
  {
    if |items| > 0 {
      var n := |items| - 1;
      ReportStep(items, results, n);
      ReportMultiset(items[..n], results[..n]);
      SplitSnoc(MovedItems(items[..n], results[..n]), FailureNames(FailedItems(items[..n], results[..n])),
                Names(items[..n]), items[n].s, results[n].Moved?);
    }
  }

  lemma MovedMembers(items: seq<JsValue>, results: seq<ItemResult>)
    requires |results| == |items| && AllStrings(items)
    ensures forall j :: 0 <= j < |items| && results[j].Moved? ==> Names(items)[j] in MovedItems(items, results)
    ensures forall x :: x in MovedItems(items, results) ==>
              exists j :: 0 <= j < |items| && Names(items)[j] == x && results[j].Moved?
  {
    MovedInOrder(items, results);
    var names, flags := Names(items), MovedFlags(results);
    forall j | 0 <= j < |items| && results[j].Moved?
      ensures names[j] in MovedItems(items, results)
    {
      PickedWhenWanted(names, flags, true, j);
    }
    forall x | x in MovedItems(items, results)
      ensures exists j :: 0 <= j < |items| && names[j] == x && results[j].Moved?
    {
      PickedOnlyWanted(names, flags, true, x);
      var j :| 0 <= j < |names| && names[j] == x && flags[j];
      assert results[j].Moved?;
    }
  }

  lemma FailedMembers(items: seq<JsValue>, results: seq<ItemResult>)
    requires |results| == |items| && AllStrings(items)
    ensures forall j :: 0 <= j < |items| && results[j].Failed? ==>
              MoveFailure(Names(items)[j], results[j].cause) in FailedItems(items, results)
    ensures forall f :: f in FailedItems(items, results) ==>
              exists j :: 0 <= j < |items| && results[j].Failed? && f == MoveFailure(Names(items)[j], results[j].cause)
  {
    forall j | 0 <= j < |items| && results[j].Failed?
      ensures MoveFailure(Names(items)[j], results[j].cause) in FailedItems(items, results)
    {
      FailedListed(items, results, j);
    }
    forall f | f in FailedItems(items, results)
      ensures exists j :: 0 <= j < |items| && results[j].Failed? && f == MoveFailure(Names(items)[j], results[j].cause)
    {
      FailedFrom(items, results, f);
    }
  }

  lemma FailedListed(items: seq<JsValue>, results: seq<ItemResult>, j: nat)
    requires |results| == |items| && AllStrings(items) && j < |items| && results[j].Failed?
    ensures MoveFailure(Names(items)[j], results[j].cause) in FailedItems(items, results)
  {
    FailedInOrder(items, results);
    var flags := MovedFlags(results);
    var qs, fs := Positions(flags, false), FailedItems(items, results);
    assert flags[j] == false;
    var k :| 0 <= k < |qs| && qs[k] == j;
    assert fs[k] == MoveFailure(Names(items)[j], results[j].cause);
  }

  lemma FailedFrom(items: seq<JsValue>, results: seq<ItemResult>, f: MoveFailure)
    requires |results| == |items| && AllStrings(items) && f in FailedItems(items, results)
    ensures exists j :: 0 <= j < |items| && results[j].Failed? && f == MoveFailure(Names(items)[j], results[j].cause)
  {
    FailedInOrder(items, results);
    var qs, fs := Positions(MovedFlags(results), false), FailedItems(items, results);
    var k :| 0 <= k < |fs| && fs[k] == f;
    var j := qs[k];
    assert results[j].Failed? && f == MoveFailure(Names(items)[j], results[j].cause);
  }

  /** The answer when every item was a string: 200 exactly when every item
      moved, 207 exactly when some item failed; "No items were moved"
      exactly when nothing moved; the moved items are those whose result is
      `Moved`, and the failures those whose result is `Failed`, each with
      its cause, both in request order; together they name every item. */
  lemma MoveAnswer(items: seq<JsValue>, results: seq<ItemResult>)
    requires |results| == |items| && AllStrings(items)
    ensures var out := Conclude(items, false, results);
      && out.Response?
      && (out.status == 200 <==> forall i :: 0 <= i < |results| ==> results[i].Moved?)
      && (out.status == 207 <==> exists i :: 0 <= i < |results| && results[i].Failed?)
      && (out.body.message == "No items were moved" <==> forall i :: 0 <= i < |results| ==> results[i].Failed?)
      && |out.body.movedItems| + |out.body.failedItems| == |items|
      && out.body.movedItems == Pick(Names(items), Positions(MovedFlags(results), true))
      && (var qs := Positions(MovedFlags(results), false);
          && |out.body.failedItems| == |qs|
          && forall k :: 0 <= k < |qs| ==>
               results[qs[k]].Failed? && out.body.failedItems[k] == MoveFailure(Names(items)[qs[k]], results[qs[k]].cause))
      && multiset(out.body.movedItems) + multiset(FailureNames(out.body.failedItems)) == multiset(Names(items))
  {
    var moved, failed := MovedItems(items, results), FailedItems(items, results);
    assert Conclude(items, false, results) == Report(moved, failed);
    ReportAnswer(moved, failed);
    ReportCounts(items, results);
    MovedInOrder(items, results);
    FailedInOrder(items, results);
    ReportMultiset(items, results);
  }

  /** The report answers 200 exactly when nothing failed, and says "No items
      were moved" exactly when nothing moved. */
  lemma ReportAnswer(moved: seq<string>, failed: seq<MoveFailure>)
    ensures var out := Report(moved, failed);
      && out.Response? && out.body.JsonMoveReport?
      && out.body.movedItems == moved && out.body.failedItems == failed
      && (out.status == 200 <==> |failed| == 0)
      && (out.status == 207 <==> |failed| > 0)
      && (out.body.message == "No items were moved" <==> |moved| == 0)
  {
    if |moved| > 0 {
      var m := MoveMessage(|moved|);
      assert m[0] == 'S';
      assert "No items were moved"[0] == 'N';
    }
  }

  /** The count in the success message can be read back. */
  lemma MoveMessageCount(moved: nat)
    requires moved > 0
    ensures var m := MoveMessage(moved);
      var digits := m[|"Successfully moved "|..|m| - |" item(s)"|];
      && StartsWith(m, "Successfully moved ")
      && (forall i :: 0 <= i < |digits| ==> '0' <= digits[i] <= '9')
      && DecimalValue(digits) == moved
  {
    var m := MoveMessage(moved);
    var digits := m[|"Successfully moved "|..|m| - |" item(s)"|];
    assert digits == Decimal(moved);
    DecimalRoundTrip(moved);
  }

  // ---------------------------------------------------------------------
  // One item

  /** One item's step keeps the tree well formed. When it moves, the
      source's entry is now at the destination and no longer at the source;
      when it fails, nothing that was there is lost (at most the
      destination's folders were created). */
  lemma MoveAtEffect(t: Tree, p: Plan, fault: IoFault)
    requires Closed(t)
    ensures var step := MoveAt(t, p, fault);
      && Closed(step.tree)
      && (step.result.Moved? ==>
            p.from in t && p.to in step.tree && step.tree[p.to] == t[p.from]
            && (p.from != p.to ==> p.from !in step.tree))
      && (step.result.Failed? ==> forall x :: x in t ==> x in step.tree && step.tree[x] == t[x])
  {
    var s, d := p.from, p.to;
    if fault != StatFails && s in t && fault != EnsureDirFails && CanEnsureDir(t, p.folder) {
      EnsureDirEffect(t, p.folder);
      var t1 := WithDir(t, p.folder);
      if fault != RenameFails && CanRename(t1, s, d) {
        RenameEffect(t1, s, d);
        RenamedOld(t1, s, d, s);
        assert d + s[|s|..] == d;
        if s != d {
          RenameVacatesSource(t1, s, d);
        }
      }
    }
  }

  /** Where an item goes: for an item whose last piece is a plain name, the
      destination path is the destination folder as `join` writes it, with
      that name appended; its `dirname` is that folder, and it resolves to
      the location directly inside the folder that `ensureDir` makes sure
      of. */
  lemma DestinationLayout(cwd: Location, root: string, destination: string, item: string)
      returns (absolute: bool, folder: seq<string>, trailing: bool)
    requires NormalSegments(cwd, false) && root != ""
    requires IsName(FileName(item)) && FileName(item) != ".."
    ensures JoinPaths([root, destination]) == Render(absolute, folder, trailing)
    ensures DestPath(root, destination, item) == Render(absolute, folder + [FileName(item)], false)
    ensures Dirname(DestPath(root, destination, item)) == Render(absolute, folder, false)
    ensures LastPiece(DestPath(root, destination, item), '/') == FileName(item)
    ensures Resolve(cwd, DestPath(root, destination, item))
         == Resolve(cwd, Dirname(DestPath(root, destination, item))) + [FileName(item)]
  {
    var name := FileName(item);
    var dirs := if destination == "" then [root] else [root, destination];
    assert NonEmpty(dirs) == dirs;
    assert JoinPaths(dirs) == JoinPaths([root, destination]) by {
      if destination == "" {
        assert NonEmpty([root, destination]) == [root];
      }
    }
    absolute, folder, trailing := JoinPathsAppendName(dirs, name);
    assert dirs + [name] == if destination == "" then [root, name] else [root, destination, name];
    var dst := Render(absolute, folder + [name], false);
    RenderNoDoubleSlash(absolute, folder + [name], false);
    JoinPathsNormalized(dirs + [name]);
    assert DestPath(root, destination, item) == dst;
    DirnameRender(absolute, folder + [name], false);
    assert Init(folder + [name]) == folder;
    LastPieceRender(absolute, folder + [name]);
    ResolveChild(cwd, absolute, folder, name);
  }

  /** A move goes through when nothing fails in the operating system, the
      source exists (and is not "/"), no folder on the way to the
      destination is a file, nothing is at the destination yet, the
      destination is not inside the source, and the destination sits
      directly in the folder that is made sure of. */
  lemma MoveAtSucceeds(t: Tree, p: Plan)
    requires Closed(t) && p.from in t && |p.from| > 0
    requires CanEnsureDir(t, p.folder) && |p.to| > 0 && Parent(p.to) == p.folder
    requires p.to !in t && !(p.from <= p.to)
    ensures MoveAt(t, p, NoFault).result == Moved
  {
    EnsureDirEffect(t, p.folder);
    var t1 := WithDir(t, p.folder);
    assert p.folder[..|p.folder|] == p.folder;
    assert !(p.to <= p.folder);
    assert CanRename(t1, p.from, p.to);
  }

  /** For the paths the handler computes, with an item whose last piece is
      a plain name, the destination does sit directly in the folder that is
      made sure of: the move goes through under the other conditions of
      `MoveAtSucceeds`. */
  lemma MoveItemSucceeds(cwd: Location, root: string, t: Tree, item: string, destination: string)
    requires NormalSegments(cwd, false) && Closed(t) && root != ""
    requires IsName(FileName(item)) && FileName(item) != ".."
    requires var p := PlanOf(cwd, root, item, destination);
      && p.from in t && |p.from| > 0 && CanEnsureDir(t, p.folder)
      && p.to !in t && !(p.from <= p.to)
    ensures MoveAt(t, PlanOf(cwd, root, item, destination), NoFault).result == Moved
  {
    var p := PlanOf(cwd, root, item, destination);
    var _, _, _ := DestinationLayout(cwd, root, destination, item);
    assert p.to == p.folder + [FileName(item)];
    assert Parent(p.to) == p.folder;
    MoveAtSucceeds(t, p);
  }

  /** The request is refused with 400 exactly when `items` is not a
      non-empty array or `destination` or `currentPath` is missing, and a
      refused request leaves the file tree alone; a request that passes the
      check is answered 200 or 207, or throws. */
  lemma MoveRequestAnswer(cwd: Location, root: string, t: Tree, items: JsValue, currentPath: JsValue,
                          destination: JsValue, faults: nat -> IoFault)
    requires NormalSegments(cwd, false)
    ensures var h := Move(cwd, root, t, items, currentPath, destination, faults);
      && (h.outcome.Response? && h.outcome.status == 400 <==> !ValidRequest(items, currentPath, destination))
      && (!ValidRequest(items, currentPath, destination) ==> h.tree == t)
      && (ValidRequest(items, currentPath, destination) && h.outcome.Response? ==> h.outcome.status in {200, 207})
  {
  }
}
