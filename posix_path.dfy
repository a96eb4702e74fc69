/** The POSIX half of the standard library's `join`, `normalize` and `dirname`
    (std/path 0.216), which the route handlers use to build file-system paths.
    A path is normalized by splitting it at '/', folding the pieces onto a
    stack of names ("" and "." are dropped, ".." pops the last name), and
    rendering the stack again with the leading '/' and the trailing '/' of the
    input. */
module PosixPath {
  import opened Strings

  /** A piece that normalization keeps as a name of its own. */
  predicate IsName(x: string)
  {
    x != "" && x != "." && '/' !in x
  }

  /** The shape of the name stack that normalization builds: names only, any
      ".." before every other name, and no ".." at all when the path is
      absolute (an absolute path cannot climb above "/"). */
  predicate NormalSegments(segs: seq<string>, aboveRoot: bool)
  {
    && (forall i :: 0 <= i < |segs| ==> IsName(segs[i]))
    && (forall i, j :: 0 <= i < j < |segs| && segs[j] == ".." ==> segs[i] == "..")
    && (!aboveRoot ==> forall i :: 0 <= i < |segs| ==> segs[i] != "..")
  }

  /** One piece of the fold: "" and "." vanish, ".." removes the last name
      unless there is none or it is itself "..", in which case a relative
      path keeps the ".." and an absolute one drops it. */
  function Step(stack: seq<string>, piece: string, aboveRoot: bool): seq<string>
  {
    if piece == "" || piece == "." then stack
    else if piece == ".." then
      if |stack| > 0 && stack[|stack| - 1] != ".." then stack[..|stack| - 1]
      else if aboveRoot then stack + [".."]
      else stack
    else stack + [piece]
  }

  /** Folds the pieces onto the stack, left to right. */
  function NormalizeSegments(stack: seq<string>, pieces: seq<string>, aboveRoot: bool): (r: seq<string>)
    requires NormalSegments(stack, aboveRoot)
    requires forall i :: 0 <= i < |pieces| ==> '/' !in pieces[i]
    ensures NormalSegments(r, aboveRoot)
    decreases |pieces|
  {
    if |pieces| == 0 then stack
    else
      var next := Step(stack, pieces[0], aboveRoot);
      assert NormalSegments(next, aboveRoot) by {
        if pieces[0] == ".." && |stack| > 0 && stack[|stack| - 1] != ".." {
          assert forall i :: 0 <= i < |next| ==> next[i] == stack[i];
        }
      }
      NormalizeSegments(next, pieces[1..], aboveRoot)
  }

  /** The joined names, or "." for an empty relative path. */
  function Body(absolute: bool, segs: seq<string>): string
  {
    var body := Join(segs, '/');
    if body == "" && !absolute then "." else body
  }

  /** Appends the trailing '/' of the input, unless there is nothing to
      append it to. */
  function Trail(body: string, trailing: bool): string
  {
    if body != "" && trailing then body + "/" else body
  }

  /** Writes a name stack back as a path. */
  function Render(absolute: bool, segs: seq<string>, trailing: bool): string
  {
    var body := Trail(Body(absolute, segs), trailing);
    if absolute then "/" + body else body
  }

  /** `normalize(path)`. */
  function Normalize(path: string): string
  {
    if |path| == 0 then "."
    else
      var absolute := path[0] == '/';
      Render(absolute, NormalizeSegments([], Split(path, '/'), !absolute), path[|path| - 1] == '/')
  }

  /** `join(...paths)`: the non-empty arguments joined with '/', then
      normalized; "." when every argument is empty. */
  function JoinPaths(paths: seq<string>): string
  {
    var given := NonEmpty(paths);
    if |given| == 0 then "." else Normalize(Join(given, '/'))
  }

  /** The scan of `dirname` from the end of the path down to index 1: the
      first '/' met after a non-separator, or -1 if there is none. */
  function DirEnd(p: string, i: int, matched: bool): (end: int)
    requires i < |p|
    ensures end == -1 || (1 <= end <= i && p[end] == '/')
    decreases i
  {
    if i < 1 then -1
    else if p[i] == '/' then (if matched then i else DirEnd(p, i - 1, matched))
    else DirEnd(p, i - 1, true)
  }

  /** Drops trailing '/' characters but never the first character. */
  function StripTrailingSeparators(s: string): (r: string)
    ensures |r| <= |s| && r == s[..|r|]
    decreases |s|
  {
    if |s| > 1 && s[|s| - 1] == '/' then StripTrailingSeparators(s[..|s| - 1]) else s
  }

  /** `dirname(path)`. */
  function Dirname(p: string): string
  {
    if |p| == 0 then "."
    else
      var end := DirEnd(p, |p| - 1, false);
      if end == -1 then (if p[0] == '/' then "/" else ".")
      else StripTrailingSeparators(p[..end])
  }

  /** The name stack without its last name. */
  function Init(segs: seq<string>): seq<string>
  {
    if |segs| == 0 then [] else segs[..|segs| - 1]
  }

  // ---------------------------------------------------------------------
  // The fold

  lemma {:induction false} NormalizeSegmentsAppend(stack: seq<string>, a: seq<string>, b: seq<string>, aboveRoot: bool)
    requires NormalSegments(stack, aboveRoot)
    requires forall i :: 0 <= i < |a| ==> '/' !in a[i]
    requires forall i :: 0 <= i < |b| ==> '/' !in b[i]
    ensures NormalizeSegments(stack, a + b, aboveRoot)
         == NormalizeSegments(NormalizeSegments(stack, a, aboveRoot), b, aboveRoot)
    decreases |a|
  {
    if |a| == 0 {
      assert a + b == b;
    } else {
      assert (a + b)[0] == a[0];
      assert (a + b)[1..] == a[1..] + b;
      var next := Step(stack, a[0], aboveRoot);
      assert NormalizeSegments(stack, a + b, aboveRoot) == NormalizeSegments(next, a[1..] + b, aboveRoot);
      NormalizeSegmentsAppend(next, a[1..], b, aboveRoot);
    }
  }

  /** A stack that is already in normal form comes out of the fold as it went
      in: normalization is the identity on normalized names. */
  lemma {:induction false} NormalizeSegmentsOfNormal(stack: seq<string>, names: seq<string>, aboveRoot: bool)
    requires NormalSegments(stack + names, aboveRoot)
    ensures NormalSegments(stack, aboveRoot)
    ensures forall i :: 0 <= i < |names| ==> '/' !in names[i]
    ensures NormalizeSegments(stack, names, aboveRoot) == stack + names
    decreases |names|
  {
    var all := stack + names;
    assert forall i :: 0 <= i < |stack| ==> stack[i] == all[i];
    assert forall i :: 0 <= i < |names| ==> names[i] == all[|stack| + i];
    if |names| > 0 {
      var x := names[0];
      assert x == all[|stack|];
      if x == ".." && |stack| > 0 {
        assert stack[|stack| - 1] == all[|stack| - 1];
      }
      assert Step(stack, x, aboveRoot) == stack + [x];
      assert (stack + [x]) + names[1..] == all;
      NormalizeSegmentsOfNormal(stack + [x], names[1..], aboveRoot);
    }
  }

  lemma NormalPrefix(segs: seq<string>, k: nat, aboveRoot: bool)
    requires NormalSegments(segs, aboveRoot) && k <= |segs|
    ensures NormalSegments(segs[..k], aboveRoot)
  {
  }

  // ---------------------------------------------------------------------
  // Rendering

  lemma SplitLeadingSlash(b: string)
    ensures Split("/" + b, '/') == [""] + Split(b, '/')
  {
    SplitAppend("", b, '/');
    assert "/" + b == "" + ['/'] + b;
  }

  lemma SplitTrailingSlash(b: string)
    ensures Split(b + "/", '/') == Split(b, '/') + [""]
  {
    SplitAppend(b, "", '/');
    assert b + "/" == b + ['/'] + "";
  }

  lemma SkipEmptyFront(stack: seq<string>, pieces: seq<string>, aboveRoot: bool)
    requires NormalSegments(stack, aboveRoot)
    requires forall i :: 0 <= i < |pieces| ==> '/' !in pieces[i]
    ensures NormalizeSegments(stack, [""] + pieces, aboveRoot) == NormalizeSegments(stack, pieces, aboveRoot)
  {
    assert ([""] + pieces)[1..] == pieces;
  }

  lemma SkipEmptyBack(stack: seq<string>, pieces: seq<string>, aboveRoot: bool)
    requires NormalSegments(stack, aboveRoot)
    requires forall i :: 0 <= i < |pieces| ==> '/' !in pieces[i]
    ensures NormalizeSegments(stack, pieces + [""], aboveRoot) == NormalizeSegments(stack, pieces, aboveRoot)
  {
    NormalizeSegmentsAppend(stack, pieces, [""], aboveRoot);
  }

  /** The body of a non-empty name stack is the names joined by '/'. */
  lemma BodyNonEmpty(absolute: bool, segs: seq<string>)
    requires |segs| > 0 && NormalSegments(segs, !absolute)
    ensures Body(absolute, segs) == Join(segs, '/')
    ensures Split(Body(absolute, segs), '/') == segs
    ensures NoDoubleSlash(Body(absolute, segs))
    ensures |Body(absolute, segs)| > 0
    ensures Body(absolute, segs)[0] != '/'
    ensures Body(absolute, segs)[|Body(absolute, segs)| - 1] != '/'
  {
    JoinClean(segs);
    SplitJoin(segs, '/');
    assert segs[0][0] in segs[0];
  }

  lemma BodyEmpty(absolute: bool)
    ensures Body(absolute, []) == if absolute then "" else "."
  {
  }

  /** Folding the pieces of a body gives its names back. */
  lemma SplitBody(absolute: bool, segs: seq<string>)
    requires NormalSegments(segs, !absolute)
    ensures NormalizeSegments([], Split(Body(absolute, segs), '/'), !absolute) == segs
  {
    if |segs| > 0 {
      BodyNonEmpty(absolute, segs);
      NormalizeSegmentsOfNormal([], segs, !absolute);
      assert [] + segs == segs;
    } else if absolute {
      assert Split("", '/') == [""];
    } else {
      SplitWithoutSep(".", '/');
    }
  }

  /** What the fold of `normalize` sees in a rendered path is the stack that
      was rendered. */
  lemma SplitRender(absolute: bool, segs: seq<string>, trailing: bool)
    requires NormalSegments(segs, !absolute)
    ensures NormalizeSegments([], Split(Render(absolute, segs, trailing), '/'), !absolute) == segs
  {
    var body := Body(absolute, segs);
    var t := Trail(body, trailing);
    SplitBody(absolute, segs);
    if body != "" && trailing {
      SplitTrailingSlash(body);
      SkipEmptyBack([], Split(body, '/'), !absolute);
    }
    assert NormalizeSegments([], Split(t, '/'), !absolute) == segs;
    if absolute {
      SplitLeadingSlash(t);
      SkipEmptyFront([], Split(t, '/'), !absolute);
    }
  }

  /** The output of `normalize` is a rendered normal name stack. */
  lemma NormalizeIsRender(p: string) returns (absolute: bool, segs: seq<string>, trailing: bool)
    ensures NormalSegments(segs, !absolute)
    ensures Normalize(p) == Render(absolute, segs, trailing)
    ensures |p| > 0 ==> absolute == (p[0] == '/')
  {
    if |p| == 0 {
      absolute, segs, trailing := false, [], false;
    } else {
      absolute := p[0] == '/';
      segs := NormalizeSegments([], Split(p, '/'), !absolute);
      trailing := p[|p| - 1] == '/';
    }
  }

  /** A rendered path never contains "//", is never empty, and begins with
      '/' exactly when it is absolute. */
  lemma RenderNoDoubleSlash(absolute: bool, segs: seq<string>, trailing: bool)
    requires NormalSegments(segs, !absolute)
    ensures NoDoubleSlash(Render(absolute, segs, trailing))
    ensures |Render(absolute, segs, trailing)| > 0
    ensures Render(absolute, segs, trailing)[0] == '/' <==> absolute
    ensures |segs| > 0 || !absolute ==>
              (Render(absolute, segs, trailing)[|Render(absolute, segs, trailing)| - 1] == '/' <==> trailing)
  {
    var r := Render(absolute, segs, trailing);
    if |segs| == 0 {
      if absolute {
        assert r == "/";
      } else {
        assert r == "." || r == "./";
      }
    } else {
      BodyNonEmpty(absolute, segs);
      var t := Trail(Body(absolute, segs), trailing);
      TrailClean(Body(absolute, segs), trailing);
      if absolute {
        SlashPrefixClean(t);
      }
    }
  }

  lemma TrailClean(j: string, trailing: bool)
    requires |j| > 0 && NoDoubleSlash(j) && j[|j| - 1] != '/'
    ensures var t := Trail(j, trailing);
      && NoDoubleSlash(t) && |t| > 0 && t[0] == j[0]
      && (t[|t| - 1] == '/' <==> trailing)
  {
    var t := Trail(j, trailing);
    if trailing {
      assert t == j + ['/'];
      forall i | 0 <= i < |t| - 1
        ensures !(t[i] == '/' && t[i + 1] == '/')
      {
        if i < |j| - 1 {
          assert t[i] == j[i] && t[i + 1] == j[i + 1];
        } else {
          assert t[i] == j[|j| - 1];
        }
      }
    }
  }

  lemma SlashPrefixClean(t: string)
    requires |t| > 0 && NoDoubleSlash(t) && t[0] != '/'
    ensures NoDoubleSlash("/" + t)
  {
    var r := "/" + t;
    forall i | 0 <= i < |r| - 1
      ensures !(r[i] == '/' && r[i + 1] == '/')
    {
      if i > 0 {
        assert r[i] == t[i - 1] && r[i + 1] == t[i];
      }
    }
  }

  /** Normalizing a normalized path changes nothing. */
  lemma NormalizeIdempotent(p: string)
    ensures Normalize(Normalize(p)) == Normalize(p)
    ensures NoDoubleSlash(Normalize(p))
  {
    var absolute, segs, trailing := NormalizeIsRender(p);
    var r := Render(absolute, segs, trailing);
    RenderNoDoubleSlash(absolute, segs, trailing);
    SplitRender(absolute, segs, trailing);
    if |segs| == 0 && absolute {
      assert r == "/";
    }
  }

  /** Every result of `join` is already normalized and free of "//". */
  lemma JoinPathsNormalized(paths: seq<string>)
    ensures Normalize(JoinPaths(paths)) == JoinPaths(paths)
    ensures NoDoubleSlash(JoinPaths(paths))
  {
    var given := NonEmpty(paths);
    if |given| == 0 {
      assert Normalize(".") == Render(false, [], false) == ".";
    } else {
      NormalizeIdempotent(Join(given, '/'));
    }
  }

  // ---------------------------------------------------------------------
  // dirname

  lemma {:induction false} ScanName(p: string, i: int, lo: int, matched: bool)
    requires 0 <= lo < i < |p|
    requires forall j :: lo < j <= i ==> p[j] != '/'
    ensures DirEnd(p, i, matched) == DirEnd(p, lo, true)
    decreases i
  {
    if i - 1 > lo {
      ScanName(p, i - 1, lo, true);
    }
  }

  /** The rendered path of a stack that ends in `x`: a head, then `x`, then
      the optional trailing '/'. The head is empty or "/" when `x` is the
      only name, and otherwise ends in the '/' before `x`. */
  lemma RenderSnoc(absolute: bool, init: seq<string>, x: string, trailing: bool)
    requires NormalSegments(init + [x], !absolute)
    ensures NormalSegments(init, !absolute) && IsName(x)
    ensures var head := if |init| == 0 then (if absolute then "/" else "")
                        else Render(absolute, init, false) + "/";
            Render(absolute, init + [x], trailing) == head + x + (if trailing then "/" else "")
  {
    var segs := init + [x];
    assert segs[..|init|] == init;
    NormalPrefix(segs, |init|, !absolute);
    assert segs[|init|] == x;
    BodyNonEmpty(absolute, segs);
    if |init| == 0 {
      assert Join(segs, '/') == x;
    } else {
      BodyNonEmpty(absolute, init);
      RenderSnocMore(absolute, init, x, trailing);
    }
  }

  lemma RenderSnocMore(absolute: bool, init: seq<string>, x: string, trailing: bool)
    requires |init| > 0 && Body(absolute, init) == Join(init, '/')
    requires Body(absolute, init + [x]) == Join(init + [x], '/')
    ensures Render(absolute, init + [x], trailing)
         == Render(absolute, init, false) + "/" + x + (if trailing then "/" else "")
  {
    BodySnoc(absolute, init, x);
    var pre := if absolute then "/" else "";
    assert Render(absolute, init, false) == pre + Body(absolute, init);
    assert Render(absolute, init + [x], trailing) == pre + Trail(Body(absolute, init + [x]), trailing);
    TrailAfter(pre, Body(absolute, init), x, trailing);
  }

  lemma TrailAfter(pre: string, b: string, x: string, trailing: bool)
    ensures pre + Trail(b + "/" + x, trailing) == (pre + b) + "/" + x + (if trailing then "/" else "")
  {
  }

  lemma BodySnoc(absolute: bool, init: seq<string>, x: string)
    requires |init| > 0 && Body(absolute, init) == Join(init, '/')
    requires Body(absolute, init + [x]) == Join(init + [x], '/')
    ensures Body(absolute, init + [x]) == Body(absolute, init) + "/" + x
  {
    JoinSnoc(init, x, '/');
  }

  lemma DirnameRenderEmpty(absolute: bool, trailing: bool)
    ensures Dirname(Render(absolute, [], trailing)) == Render(absolute, [], false)
  {
    var r := Render(absolute, [], trailing);
    if absolute {
      assert r == "/";
    } else if trailing {
      assert r == "./";
      assert DirEnd(r, 1, false) == DirEnd(r, 0, false) == -1;
    } else {
      assert r == ".";
    }
  }

  /** The scan of `dirname` over `head + x + post`, where `x` is a name and
      `post` is "" or "/", skips `post` and `x` and stops at the end of
      `head`. */
  lemma ScanLastName(head: string, x: string, trailing: bool)
    requires IsName(x)
    ensures var r := head + x + (if trailing then "/" else "");
            DirEnd(r, |r| - 1, false) == if |head| == 0 then -1 else DirEnd(r, |head| - 1, true)
  {
    var r := head + x + (if trailing then "/" else "");
    var last := |head| + |x| - 1;
    assert DirEnd(r, |r| - 1, false) == DirEnd(r, last, false) by {
      if trailing {
        assert r[|r| - 1] == '/';
      }
    }
    forall j | |head| <= j <= last
      ensures r[j] != '/'
    {
      assert r[j] == x[j - |head|];
      assert x[j - |head|] in x;
    }
    if |head| == 0 {
      if last > 0 {
        ScanName(r, last, 0, false);
      }
    } else if last > |head| - 1 {
      ScanName(r, last, |head| - 1, false);
    }
  }

  lemma DirnameRenderOne(absolute: bool, x: string, trailing: bool)
    requires NormalSegments([x], !absolute)
    ensures Dirname(Render(absolute, [x], trailing)) == Render(absolute, [], false)
  {
    RenderSnoc(absolute, [], x, trailing);
    assert [] + [x] == [x];
    var head := if absolute then "/" else "";
    var r := Render(absolute, [x], trailing);
    assert r == head + x + (if trailing then "/" else "");
    ScanLastName(head, x, trailing);
    if !absolute {
      assert r[0] == x[0];
      assert x[0] in x;
    }
  }

  /** `dirname(d + "/" + x)`, with or without a trailing '/', is `d` when
      `d` does not end in '/'. */
  lemma DirnameAfterHead(d: string, x: string, trailing: bool)
    requires |d| >= 1 && d[|d| - 1] != '/'
    requires IsName(x)
    ensures Dirname(d + "/" + x + (if trailing then "/" else "")) == d
  {
    var head := d + "/";
    var r := head + x + (if trailing then "/" else "");
    ScanLastName(head, x, trailing);
    var sep := |d|;
    assert r[sep] == '/';
    assert DirEnd(r, sep, true) == sep;
    assert r[..sep] == d;
  }

  lemma DirnameRenderMany(absolute: bool, init: seq<string>, x: string, trailing: bool)
    requires |init| > 0 && NormalSegments(init + [x], !absolute)
    ensures Dirname(Render(absolute, init + [x], trailing)) == Render(absolute, init, false)
  {
    RenderSnoc(absolute, init, x, trailing);
    var d := Render(absolute, init, false);
    assert |d| >= 1 && d[|d| - 1] != '/' by {
      BodyNonEmpty(absolute, init);
    }
    DirnameAfterHead(d, x, trailing);
  }

  /** `dirname` of a rendered path drops its last name (and a trailing '/');
      with one name or none left it is "/" for an absolute path and "."
      otherwise. */
  lemma DirnameRender(absolute: bool, segs: seq<string>, trailing: bool)
    requires NormalSegments(segs, !absolute)
    ensures Dirname(Render(absolute, segs, trailing)) == Render(absolute, Init(segs), false)
  {
    if |segs| == 0 {
      DirnameRenderEmpty(absolute, trailing);
    } else {
      var init, x := segs[..|segs| - 1], segs[|segs| - 1];
      assert segs == init + [x];
      if |init| == 0 {
        assert segs == [x];
        DirnameRenderOne(absolute, x, trailing);
      } else {
        DirnameRenderMany(absolute, init, x, trailing);
      }
    }
  }

  /** Joining a normalized directory with a plain name adds that name as the
      last segment. */
  lemma JoinName(absolute: bool, dir: seq<string>, name: string)
    requires NormalSegments(dir, !absolute)
    requires IsName(name) && name != ".."
    ensures NormalSegments(dir + [name], !absolute)
    ensures JoinPaths([Render(absolute, dir, false), name]) == Render(absolute, dir + [name], false)
  {
    var d := Render(absolute, dir, false);
    RenderNoDoubleSlash(absolute, dir, false);
    assert NonEmpty([d, name]) == [d, name];
    assert Join([d, name], '/') == d + ['/'] + name;
    var p := d + ['/'] + name;
    SplitAppend(d, name, '/');
    SplitWithoutSep(name, '/');
    SplitRender(absolute, dir, false);
    var pieces := Split(d, '/');
    assert Split(p, '/') == pieces + [name];
    NormalizeSegmentsAppend([], pieces, [name], !absolute);
    assert NormalizeSegments(dir, [name], !absolute) == dir + [name];
    assert p[0] == d[0];
    assert p[|p| - 1] == name[|name| - 1];
    assert name[|name| - 1] in name;
  }

  /** The last '/'-piece of a rendered path without trailing '/' is its last
      name. */
  lemma LastPieceRender(absolute: bool, segs: seq<string>)
    requires |segs| > 0 && NormalSegments(segs, !absolute)
    ensures LastPiece(Render(absolute, segs, false), '/') == segs[|segs| - 1]
  {
    BodyNonEmpty(absolute, segs);
    LastPieceBelow(absolute, Body(absolute, segs), Render(absolute, segs, false), segs);
  }

  lemma LastPieceBelow(absolute: bool, body: string, r: string, segs: seq<string>)
    requires |segs| > 0 && Split(body, '/') == segs
    requires r == if absolute then "/" + body else body
    ensures LastPiece(r, '/') == segs[|segs| - 1]
  {
    if absolute {
      SplitLeadingSlash(body);
    }
  }

  /** The sibling construction of a rename: `join(dirname(p), name)` for a
      plain name has the same parent as `p` and ends in `name`. */
  lemma SiblingPath(p: string, name: string)
    requires IsName(name) && name != ".."
    ensures var parent := Dirname(Normalize(p));
            var sibling := JoinPaths([parent, name]);
            Dirname(sibling) == parent && LastPiece(sibling, '/') == name
  {
    var absolute, segs, trailing := NormalizeIsRender(p);
    DirnameRender(absolute, segs, trailing);
    var dir := Init(segs);
    NormalPrefix(segs, |dir|, !absolute);
    assert dir == segs[..|dir|];
    JoinName(absolute, dir, name);
    DirnameRender(absolute, dir + [name], false);
    assert Init(dir + [name]) == dir;
    LastPieceRender(absolute, dir + [name]);
  }

  /** Appending "/" and a plain name to a path appends that name to its
      normalized form (and drops any trailing '/'). */
  lemma NormalizeAppendName(p: string, name: string) returns (absolute: bool, segs: seq<string>, trailing: bool)
    requires p != "" && IsName(name) && name != ".."
    ensures NormalSegments(segs + [name], !absolute)
    ensures Normalize(p) == Render(absolute, segs, trailing)
    ensures Normalize(p + "/" + name) == Render(absolute, segs + [name], false)
  {
    absolute, trailing := p[0] == '/', p[|p| - 1] == '/';
    segs := NormalizeSegments([], Split(p, '/'), !absolute);
    var q := p + "/" + name;
    assert q == p + ['/'] + name;
    assert q[0] == p[0];
    assert q[|q| - 1] == name[|name| - 1] && name[|name| - 1] in name;
    SplitAppend(p, name, '/');
    SplitWithoutSep(name, '/');
    NormalizeSegmentsAppend([], Split(p, '/'), [name], !absolute);
    assert NormalizeSegments(segs, [name], !absolute) == segs + [name];
  }

  /** `join(...paths, name)` for a plain name is `join(...paths)` with that
      name appended as one more segment. */
  lemma JoinPathsAppendName(paths: seq<string>, name: string) returns (absolute: bool, segs: seq<string>, trailing: bool)
    requires NonEmpty(paths) != [] && IsName(name) && name != ".."
    ensures NormalSegments(segs + [name], !absolute)
    ensures JoinPaths(paths) == Render(absolute, segs, trailing)
    ensures JoinPaths(paths + [name]) == Render(absolute, segs + [name], false)
  {
    var given := NonEmpty(paths);
    NonEmptyAppend(paths, [name]);
    assert NonEmpty([name]) == [name];
    JoinSnoc(given, name, '/');
    var j := Join(given, '/');
    assert j != "" by {
      if |given| > 1 {
        assert j == given[0] + ['/'] + Join(given[1..], '/');
      }
    }
    assert Join(given + [name], '/') == j + "/" + name;
    absolute, segs, trailing := NormalizeAppendName(j, name);
  }
}
