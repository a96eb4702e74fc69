/** The breadcrumb bar of the gallery: a root crumb "/" that navigates to the
    empty path, then one crumb per non-empty '/'-separated part of the current
    path, each navigating to the parts up to and including its own, joined
    by '/'. Only the list of crumbs is modelled, not its markup. */
module Breadcrumb {
  import opened Strings

  datatype Crumb = Crumb(text: string, target: string)

  const Root := Crumb("/", "")

  /** `currentPath.split("/").filter(Boolean)`: the folder names. */
  function PathParts(currentPath: string): (parts: seq<string>)
    ensures forall i :: 0 <= i < |parts| ==> parts[i] != "" && '/' !in parts[i]
  {
    var parts := NonEmpty(Split(currentPath, '/'));
    assert forall i :: 0 <= i < |parts| ==> '/' !in parts[i] by {
      forall i | 0 <= i < |parts|
        ensures '/' !in parts[i]
      {
        NonEmptyMembers(Split(currentPath, '/'), parts[i]);
      }
    }
    parts
  }

  /** The crumbs in display order; the crumb of part `i` navigates to
      `pathParts.slice(0, i + 1).join("/")`. */
  function Breadcrumbs(currentPath: string): (crumbs: seq<Crumb>)
    ensures |crumbs| == |PathParts(currentPath)| + 1
    ensures crumbs[0] == Root
  {
    var parts := PathParts(currentPath);
    [Root] + seq(|parts|, i requires 0 <= i < |parts| => Crumb(parts[i], Join(parts[..i + 1], '/')))
  }

  // ---------------------------------------------------------------------

  /** Crumb `i` (after the root) is labelled with the `i`-th folder name and
      navigates to a clean relative path (no leading, trailing or doubled
      '/') whose segments are exactly the first `i` folder names; its last
      segment is its label. */
  lemma CrumbTarget(currentPath: string, i: nat)
    requires 1 <= i < |Breadcrumbs(currentPath)|
    ensures var parts, c := PathParts(currentPath), Breadcrumbs(currentPath)[i];
      && c.text == parts[i - 1]
      && Split(c.target, '/') == parts[..i]
      && LastPiece(c.target, '/') == c.text
      && NoDoubleSlash(c.target)
      && c.target[0] != '/' && c.target[|c.target| - 1] != '/'
  {
    var parts := PathParts(currentPath);
    var prefix := parts[..i];
    assert Breadcrumbs(currentPath)[i].target == Join(prefix, '/');
    SplitJoin(prefix, '/');
    JoinClean(prefix);
    assert prefix[0][0] != '/' by {
      assert prefix[0] == parts[0];
      assert prefix[0][0] in prefix[0];
    }
  }

  /** Each crumb's target extends the previous one by "/" and its own text,
      so the crumbs walk down the folder tree one level at a time. */
  lemma CrumbExtends(currentPath: string, i: nat)
    requires 1 <= i && i + 1 < |Breadcrumbs(currentPath)|
    ensures var crumbs := Breadcrumbs(currentPath);
      crumbs[i + 1].target == crumbs[i].target + "/" + crumbs[i + 1].text
  {
    var parts := PathParts(currentPath);
    assert parts[..i + 1] == parts[..i] + [parts[i]];
    JoinSnoc(parts[..i], parts[i], '/');
  }

  /** When the current path is already clean (no empty part), the last crumb
      navigates back to the current path itself. */
  lemma LastCrumbIsCurrent(currentPath: string)
    requires forall i :: 0 <= i < |Split(currentPath, '/')| ==> Split(currentPath, '/')[i] != ""
    ensures var crumbs := Breadcrumbs(currentPath);
      |crumbs| >= 2 && crumbs[|crumbs| - 1].target == currentPath
  {
    var pieces := Split(currentPath, '/');
    NonEmptyIdentity(pieces);
    var parts := PathParts(currentPath);
    assert parts == pieces;
    assert parts[..|parts|] == parts;
    JoinSplit(currentPath, '/');
  }

  /** Only the root crumb is shown exactly when the path consists of '/'
      characters alone (the empty path included). */
  lemma RootOnlyIffNoFolder(currentPath: string)
    ensures |Breadcrumbs(currentPath)| == 1 <==> forall j :: 0 <= j < |currentPath| ==> currentPath[j] == '/'
  {
    if forall j :: 0 <= j < |currentPath| ==> currentPath[j] == '/' {
      AllSlashesNoPart(currentPath);
    } else {
      var j :| 0 <= j < |currentPath| && currentPath[j] != '/';
      var k := NonSlashMakesPiece(currentPath, j);
      NonEmptyKeeps(Split(currentPath, '/'), k);
    }
  }

  /** Repeated '/' in the current path do not change the crumbs. */
  lemma CollapsedPathSameCrumbs(currentPath: string)
    ensures Breadcrumbs(CollapseSlashes(currentPath)) == Breadcrumbs(currentPath)
  {
    CollapseKeepsSegments(currentPath);
  }

  lemma {:induction false} AllSlashesNoPart(s: string)
    requires forall j :: 0 <= j < |s| ==> s[j] == '/'
    ensures NonEmpty(Split(s, '/')) == []
    decreases |s|
  {
    if |s| > 0 {
      AllSlashesNoPart(s[1..]);
      assert Split(s, '/') == [""] + Split(s[1..], '/');
    }
  }

  lemma {:induction false} NonSlashMakesPiece(s: string, j: nat) returns (k: nat)
    requires j < |s| && s[j] != '/'
    ensures k < |Split(s, '/')| && Split(s, '/')[k] != ""
    decreases |s|
  {
    if s[0] != '/' {
      k := 0;
    } else {
      var k' := NonSlashMakesPiece(s[1..], j - 1);
      k := k' + 1;
    }
  }

  lemma {:induction false} NonEmptyKeeps(parts: seq<string>, k: nat)
    requires k < |parts| && parts[k] != ""
    ensures |NonEmpty(parts)| > 0
    decreases |parts|
  {
    if k > 0 && parts[0] == "" {
      NonEmptyKeeps(parts[1..], k - 1);
    }
  }
}
