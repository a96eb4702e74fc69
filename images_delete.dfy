/** `POST /api/images/delete`: removes each selected item of the upload root,
    one at a time, without `recursive` (so a folder goes only when it is
    empty). An item that fails is listed and the loop goes on; the answer
    lists the deleted and the failed items and is 200 when nothing failed,
    207 otherwise. */
module ImagesDelete {
  import opened Strings
  import opened PosixPath
  import opened JsValues
  import opened FileTree
  import opened Http
  import opened Indexing

  const ImagesDir := "./user_uploads"

  /** The request check: `items` a non-empty array. */
  predicate ValidRequest(items: JsValue)
  {
    IsTruthy(items) && items.Array? && |items.elems| > 0
  }

  const InvalidRequest := Response(400, Text("Invalid request"))

  /** `join(IMAGES_DIR, item)`, for the upload root `root` (the handler's is
      `ImagesDir`). */
  function FullPath(root: string, item: string): string
  {
    JoinPaths([root, item])
  }

  /** The items the loop gets to, as strings: all of them, or those before
      the first item that is not a string. There `join`, which runs before
      the `try`, throws, and the exception escapes the handler. */
  datatype Reached = Reached(names: seq<string>, threw: bool)

  function ReachedItems(items: seq<JsValue>): (r: Reached)
    ensures |r.names| <= |items|
    ensures forall j :: 0 <= j < |r.names| ==> items[j] == Str(r.names[j])
    ensures !r.threw ==> |r.names| == |items|
    ensures r.threw ==> |r.names| < |items| && !items[|r.names|].Str?
    decreases |items|
  {
    if |items| == 0 then Reached([], false)
    else
      var n := |items| - 1;
      var prev := ReachedItems(items[..n]);
      if prev.threw then prev
      else if !items[n].Str? then Reached(prev.names, true)
      else Reached(prev.names + [items[n].s], false)
  }

  /** The locations the loop removes, in order. */
  function LocationsOf(cwd: Location, root: string, names: seq<string>): (locs: seq<Location>)
    requires NormalSegments(cwd, false)
  {
    seq(|names|, j requires 0 <= j < |names| => Resolve(cwd, FullPath(root, names[j])))
  }

  /** One item's `try` block: `Deno.remove` on its location, failing when
      `fault` is set. */
  datatype ItemStep = ItemStep(deleted: bool, tree: Tree)

  function DeleteAt(t: Tree, k: Location, fault: bool): ItemStep
  {
    if !fault && CanRemove(t, k) then ItemStep(true, t - {k}) else ItemStep(false, t)
  }

  /** The loop so far: whether each item was deleted, and the tree. */
  datatype Run = Run(results: seq<bool>, tree: Tree)

  /** The `try` blocks of the loop, item `i` meeting `faults(i)`. */
  function DeleteAll(t: Tree, locs: seq<Location>, faults: nat -> bool): (run: Run)
    ensures |run.results| == |locs|
    decreases |locs|
  {
    if |locs| == 0 then Run([], t)
    else
      var n := |locs| - 1;
      var prev := DeleteAll(t, locs[..n], faults);
      var step := DeleteAt(prev.tree, locs[n], faults(n));
      Run(prev.results + [step.deleted], step.tree)
  }

  /** `deletedItems` (when `wanted`) or `failedItems` (otherwise): the items
      whose result is `wanted`, in request order. */
  function Select(names: seq<string>, results: seq<bool>, wanted: bool): seq<string>
    requires |results| == |names|
    decreases |names|
  {
    if |names| == 0 then []
    else
      var n := |names| - 1;
      Select(names[..n], results[..n], wanted) + (if results[n] == wanted then [names[n]] else [])
  }

  function DeleteMessage(deleted: nat): string
  {
    if deleted > 0 then "Successfully deleted " + Decimal(deleted) + " item(s)" else "No items were deleted"
  }

  function Report(deleted: seq<string>, failed: seq<string>): Outcome
  {
    Response(if |failed| == 0 then 200 else 207, JsonDeleteReport(DeleteMessage(|deleted|), deleted, failed))
  }

  /** The answer once the loop is over. */
  function Conclude(names: seq<string>, threw: bool, results: seq<bool>): Outcome
    requires |results| == |names|
  {
    if threw then Uncaught else Report(Select(names, results, true), Select(names, results, false))
  }

  /** The whole request, for the upload root `root`. */
  function Delete(cwd: Location, root: string, t: Tree, items: JsValue, faults: nat -> bool): Handled
    requires NormalSegments(cwd, false)
  {
    if !ValidRequest(items) then Handled(InvalidRequest, t)
    else
      var reached := ReachedItems(items.elems);
      var run := DeleteAll(t, LocationsOf(cwd, root, reached.names), faults);
      Handled(Conclude(reached.names, reached.threw, run.results), run.tree)
  }

  /** The handler: the loop over the items, with the upload root the source
      fixes. */
  method HandleDelete(fs: FileSystem, items: JsValue, faults: nat -> bool) returns (outcome: Outcome)
    requires fs.Valid()
    modifies fs
    ensures fs.Valid()
    ensures Handled(outcome, fs.tree) == Delete(fs.cwd, ImagesDir, old(fs.tree), items, faults)
  {
    outcome := DeleteItems(fs, ImagesDir, items, faults);
  }

  /** The loop, removing the items one by one on the file system. */
  method DeleteItems(fs: FileSystem, root: string, items: JsValue, faults: nat -> bool) returns (outcome: Outcome)
    requires fs.Valid()
    modifies fs
    ensures fs.Valid()
    ensures Handled(outcome, fs.tree) == Delete(fs.cwd, root, old(fs.tree), items, faults)
  {
    if !ValidRequest(items) {
      return InvalidRequest;
    }
    var elems := items.elems;
    var deletedItems: seq<string> := [];
    var failedItems: seq<string> := [];
    var i := 0;
    while i < |elems|
      invariant 0 <= i <= |elems|
      invariant fs.Valid()
      invariant Progress(fs.cwd, root, old(fs.tree), elems, faults, i, fs.tree, deletedItems, failedItems)
    {
      var item := elems[i];
      if !item.Str? {
        ReachedThrewAt(elems, i);
        return Uncaught;
      }
      ghost var tree := fs.tree;
      var ok := fs.Remove(FullPath(root, item.s), false, faults(i));
      ProgressStep(fs.cwd, root, old(fs.tree), elems, faults, i, tree, deletedItems, failedItems, ok, fs.tree);
      if ok {
        deletedItems := deletedItems + [item.s];
      } else {
        failedItems := failedItems + [item.s];
      }
      i := i + 1;
    }
    assert elems[..i] == elems;
    outcome := Report(deletedItems, failedItems);
  }

  /** What the loop has done after `i` items: none threw, the tree is the
      one their `try` blocks left, and the lists hold their results. */
  ghost predicate Progress(cwd: Location, root: string, t: Tree, items: seq<JsValue>, faults: nat -> bool,
                           i: nat, tree: Tree, deleted: seq<string>, failed: seq<string>)
    requires NormalSegments(cwd, false) && i <= |items|
  {
    var reached := ReachedItems(items[..i]);
    var run := DeleteAll(t, LocationsOf(cwd, root, reached.names), faults);
    && !reached.threw && tree == run.tree
    && deleted == Select(reached.names, run.results, true)
    && failed == Select(reached.names, run.results, false)
  }

  /** One string item handled by its `try` block keeps `Progress`. */
  lemma ProgressStep(cwd: Location, root: string, t: Tree, items: seq<JsValue>, faults: nat -> bool,
                     i: nat, tree: Tree, deleted: seq<string>, failed: seq<string>, ok: bool, tree': Tree)
    requires NormalSegments(cwd, false) && i < |items| && items[i].Str?
    requires Progress(cwd, root, t, items, faults, i, tree, deleted, failed)
    requires ItemStep(ok, tree') == DeleteAt(tree, Resolve(cwd, FullPath(root, items[i].s)), faults(i))
    ensures Progress(cwd, root, t, items, faults, i + 1, tree',
                     deleted + (if ok then [items[i].s] else []),
                     failed + (if ok then [] else [items[i].s]))
  {
    var names := ReachedItems(items[..i]).names;
    var locs := LocationsOf(cwd, root, names);
    var k := Resolve(cwd, FullPath(root, items[i].s));
    var prev := DeleteAll(t, locs, faults);
    assert items[..i + 1][..i] == items[..i];
    assert ReachedItems(items[..i + 1]).names == names + [items[i].s];
    assert LocationsOf(cwd, root, names + [items[i].s]) == locs + [k];
    assert (locs + [k])[..i] == locs;
    assert DeleteAll(t, locs + [k], faults) == Run(prev.results + [ok], tree');
    SelectSnoc(names, prev.results, items[i].s, ok);
  }

  lemma SelectSnoc(names: seq<string>, results: seq<bool>, x: string, r: bool)
    requires |results| == |names|
    ensures Select(names + [x], results + [r], true) == Select(names, results, true) + (if r then [x] else [])
    ensures Select(names + [x], results + [r], false) == Select(names, results, false) + (if r then [] else [x])
  {
    assert (names + [x])[..|names|] == names;
    assert (results + [r])[..|names|] == results;
  }

  /** The first item that is not a string ends the loop with an exception;
      the items after it are never looked at. */
  lemma ReachedThrewAt(items: seq<JsValue>, i: nat)
    requires i < |items| && !ReachedItems(items[..i]).threw && !items[i].Str?
    ensures ReachedItems(items) == Reached(ReachedItems(items[..i]).names, true)
  {
    assert items[..i + 1][..i] == items[..i];
    ReachedThrewStays(items, i + 1);
  }

  lemma {:induction false} ReachedThrewStays(items: seq<JsValue>, k: nat)
    requires k <= |items| && ReachedItems(items[..k]).threw
    ensures ReachedItems(items) == ReachedItems(items[..k])
    decreases |items| - k
  {
    if k < |items| {
      var n := |items| - 1;
      assert items[..n][..k] == items[..k];
      ReachedThrewStays(items[..n], k);
    } else {
      assert items[..k] == items;
    }
  }

  // ---------------------------------------------------------------------
  // What the loop does to the tree

  /** The locations whose removal succeeded. */
  function RemovedSet(locs: seq<Location>, results: seq<bool>): set<Location>
    requires |results| == |locs|
  {
    set i | 0 <= i < |locs| && results[i] :: locs[i]
  }

  /** The loop removes exactly the locations it reports deleted. */
  lemma {:induction false} DeleteAllRemoves(t: Tree, locs: seq<Location>, faults: nat -> bool)
    ensures var run := DeleteAll(t, locs, faults);
      run.tree == t - RemovedSet(locs, run.results)
    decreases |locs|
  {
    if |locs| > 0 {
      var n := |locs| - 1;
      var prev := DeleteAll(t, locs[..n], faults);
      var run := DeleteAll(t, locs, faults);
      DeleteAllRemoves(t, locs[..n], faults);
      RemovedSetSnoc(locs, prev.results, run.results[n]);
      assert run.results == prev.results + [run.results[n]];
    }
  }

  lemma RemovedSetSnoc(locs: seq<Location>, results: seq<bool>, r: bool)
    requires |locs| > 0 && |results| == |locs| - 1
    ensures var n := |locs| - 1;
      RemovedSet(locs, results + [r]) == RemovedSet(locs[..n], results) + (if r then {locs[n]} else {})
  {
    var n := |locs| - 1;
    var all := results + [r];
    forall x | x in RemovedSet(locs, all)
      ensures x in RemovedSet(locs[..n], results) + (if r then {locs[n]} else {})
    {
      var i :| 0 <= i < |locs| && all[i] && x == locs[i];
      if i < n {
        assert locs[..n][i] == x && results[i];
      }
    }
    forall x | x in RemovedSet(locs[..n], results)
      ensures x in RemovedSet(locs, all)
    {
      var i :| 0 <= i < n && results[i] && x == locs[..n][i];
      assert all[i] && locs[i] == x;
    }
  }

  /** The tree stays well formed through the whole loop. */
  lemma {:induction false} DeleteAllClosed(t: Tree, locs: seq<Location>, faults: nat -> bool)
    requires Closed(t)
    ensures Closed(DeleteAll(t, locs, faults).tree)
    decreases |locs|
  {
    if |locs| > 0 {
      var n := |locs| - 1;
      var prev := DeleteAll(t, locs[..n], faults);
      DeleteAllClosed(t, locs[..n], faults);
      if !faults(n) && CanRemove(prev.tree, locs[n]) {
        RemoveEffect(prev.tree, locs[n]);
      }
    }
  }

  /** An item is reported deleted only when its location was there when its
      turn came, and was a file or an empty folder. */
  lemma {:induction false} DeletedWasRemovable(t: Tree, locs: seq<Location>, faults: nat -> bool, i: nat)
    requires i < |locs| && DeleteAll(t, locs, faults).results[i]
    ensures CanRemove(DeleteAll(t, locs[..i], faults).tree, locs[i])
    decreases |locs|
  {
    var n := |locs| - 1;
    if i < n {
      assert locs[..n][..i] == locs[..i];
      DeletedWasRemovable(t, locs[..n], faults, i);
    } else {
      assert locs[..i] == locs[..n];
    }
  }

  // ---------------------------------------------------------------------
  // The report

  /** Every item is reported exactly once, in the list its result picks:
      the two lists together hold the request's items, each item sits in
      the list of its own result, and each listed name comes from an item
      with that result. */
  lemma SelectPartition(names: seq<string>, results: seq<bool>)
    requires |results| == |names|
    ensures |Select(names, results, true)| + |Select(names, results, false)| == |names|
    ensures |Select(names, results, false)| == 0 <==> forall i :: 0 <= i < |results| ==> results[i]
    ensures |Select(names, results, true)| == 0 <==> forall i :: 0 <= i < |results| ==> !results[i]
    ensures multiset(Select(names, results, true)) + multiset(Select(names, results, false)) == multiset(names)
    ensures forall j :: 0 <= j < |names| ==> names[j] in Select(names, results, results[j])
    ensures forall wanted: bool, x :: x in Select(names, results, wanted) ==>
              exists j :: 0 <= j < |names| && names[j] == x && results[j] == wanted
  {
    SelectCounts(names, results);
    SelectMultiset(names, results);
    SelectMembers(names, results);
  }

  lemma {:induction false} SelectCounts(names: seq<string>, results: seq<bool>)
    requires |results| == |names|
    ensures |Select(names, results, true)| + |Select(names, results, false)| == |names|
    ensures |Select(names, results, false)| == 0 <==> forall i :: 0 <= i < |results| ==> results[i]
    ensures |Select(names, results, true)| == 0 <==> forall i :: 0 <= i < |results| ==> !results[i]
    decreases |names|
  {
    if |names| > 0 {
      var n := |names| - 1;
      SelectCounts(names[..n], results[..n]);
      assert forall i :: 0 <= i < n ==> results[..n][i] == results[i];
    }
  }

  /** The two lists together are the request's items, duplicates counted. */
  lemma {:induction false} SelectMultiset(names: seq<string>, results: seq<bool>)
    requires |results| == |names|
    ensures multiset(Select(names, results, true)) + multiset(Select(names, results, false)) == multiset(names)
    decreases |names|
  {
    if |names| > 0 {
      var n := |names| - 1;
      SelectMultiset(names[..n], results[..n]);
      SplitSnoc(Select(names[..n], results[..n], true), Select(names[..n], results[..n], false),
                names[..n], names[n], results[n]);
      assert names[..n] + [names[n]] == names;
    }
  }

  /** Each list holds exactly the items whose result it wants, in request
      order. */
  lemma {:induction false} SelectInOrder(names: seq<string>, results: seq<bool>, wanted: bool)
    requires |results| == |names|
    ensures Select(names, results, wanted) == Pick(names, Positions(results, wanted))
    decreases |names|
  {
    if |names| > 0 {
      var n := |names| - 1;
      SelectInOrder(names[..n], results[..n], wanted);
      PickSnoc(names, n, Positions(results[..n], wanted), results[n] == wanted);
    }
  }

  lemma SelectMembers(names: seq<string>, results: seq<bool>)
    requires |results| == |names|
    ensures forall j :: 0 <= j < |names| ==> names[j] in Select(names, results, results[j])
    ensures forall wanted: bool, x :: x in Select(names, results, wanted) ==>
              exists j :: 0 <= j < |names| && names[j] == x && results[j] == wanted
  {
    forall j | 0 <= j < |names|
      ensures names[j] in Select(names, results, results[j])
    {
      SelectInOrder(names, results, results[j]);
      PickedWhenWanted(names, results, results[j], j);
    }
    forall wanted: bool, x | x in Select(names, results, wanted)
      ensures exists j :: 0 <= j < |names| && names[j] == x && results[j] == wanted
    {
      SelectInOrder(names, results, wanted);
      PickedOnlyWanted(names, results, wanted, x);
    }
  }

  /** The answer when every item was a string: 200 exactly when every item
      was deleted, 207 exactly when some item failed; "No items were
      deleted" exactly when nothing was; each list holds exactly the items with
      its result, in request order, and together they hold every item. */
  lemma DeleteAnswer(names: seq<string>, results: seq<bool>)
    requires |results| == |names|
    ensures var out := Conclude(names, false, results);
      && out.Response?
      && (out.status == 200 <==> forall i :: 0 <= i < |results| ==> results[i])
      && (out.status == 207 <==> exists i :: 0 <= i < |results| && !results[i])
      && (out.body.message == "No items were deleted" <==> forall i :: 0 <= i < |results| ==> !results[i])
      && |out.body.deletedItems| + |out.body.undeletedItems| == |names|
      && out.body.deletedItems == Pick(names, Positions(results, true))
      && out.body.undeletedItems == Pick(names, Positions(results, false))
      && multiset(out.body.deletedItems) + multiset(out.body.undeletedItems) == multiset(names)
  {
    SelectCounts(names, results);
    SelectMultiset(names, results);
    SelectInOrder(names, results, true);
    SelectInOrder(names, results, false);
    var deleted := Select(names, results, true);
    if |deleted| > 0 {
      var m := DeleteMessage(|deleted|);
      assert m[0] == 'S';
      assert "No items were deleted"[0] == 'N';
    }
  }

  /** The request is refused with 400 exactly when `items` is not a
      non-empty array, and a refused request leaves the file tree alone; a
      request that passes the check is answered 200 or 207, or throws. */
  lemma DeleteRequestAnswer(cwd: Location, root: string, t: Tree, items: JsValue, faults: nat -> bool)
    requires NormalSegments(cwd, false)
    ensures var h := Delete(cwd, root, t, items, faults);
      && (h.outcome.Response? && h.outcome.status == 400 <==> !ValidRequest(items))
      && (!ValidRequest(items) ==> h.tree == t)
      && (ValidRequest(items) && h.outcome.Response? ==> h.outcome.status in {200, 207})
  {
  }

  /** The count in the success message can be read back. */
  lemma DeleteMessageCount(deleted: nat)
    requires deleted > 0
    ensures var m := DeleteMessage(deleted);
      var digits := m[|"Successfully deleted "|..|m| - |" item(s)"|];
      && StartsWith(m, "Successfully deleted ")
      && (forall i :: 0 <= i < |digits| ==> '0' <= digits[i] <= '9')
      && DecimalValue(digits) == deleted
  {
    var m := DeleteMessage(deleted);
    var digits := m[|"Successfully deleted "|..|m| - |" item(s)"|];
    assert digits == Decimal(deleted);
    DecimalRoundTrip(deleted);
  }
}
