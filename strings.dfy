/** String operations the handlers use on paths: JavaScript's `split`/`join`
    on one separator character, `filter(Boolean)` over the parts, the
    regular-expression replacement `replace(/\/+/g, '/')`, ASCII lower-casing,
    `startsWith` and `slice`. */
module Strings {

  /** `s.split(sep)` in JavaScript: the pieces between separators, always at
      least one piece ("" splits to [""]). */
  function Split(s: string, sep: char): (parts: seq<string>)
    ensures |parts| >= 1
    ensures forall i :: 0 <= i < |parts| ==> sep !in parts[i]
    decreases |s|
  {
    if |s| == 0 then [""]
    else if s[0] == sep then [""] + Split(s[1..], sep)
    else
      var rest := Split(s[1..], sep);
      [[s[0]] + rest[0]] + rest[1..]
  }

  /** `parts.join(sep)` in JavaScript. */
  function Join(parts: seq<string>, sep: char): string
    decreases |parts|
  {
    if |parts| == 0 then ""
    else if |parts| == 1 then parts[0]
    else parts[0] + [sep] + Join(parts[1..], sep)
  }

  /** `parts.filter(Boolean)` on strings: drops every empty string, keeps order. */
  function NonEmpty(parts: seq<string>): (r: seq<string>)
    ensures forall i :: 0 <= i < |r| ==> r[i] != ""
    ensures |r| <= |parts|
    decreases |parts|
  {
    if |parts| == 0 then []
    else if parts[0] == "" then NonEmpty(parts[1..])
    else [parts[0]] + NonEmpty(parts[1..])
  }

  /** The last piece of `s.split(sep)`, i.e. `s.split(sep).pop()`. */
  function LastPiece(s: string, sep: char): string
  {
    var parts := Split(s, sep);
    parts[|parts| - 1]
  }

  predicate StartsWith(s: string, prefix: string)
  {
    |prefix| <= |s| && s[..|prefix|] == prefix
  }

  /** `s.slice(start)` for a non-negative start: "" once start passes the end. */
  function SliceFrom(s: string, start: nat): (r: string)
    ensures start <= |s| ==> s == s[..start] + r
    ensures start >= |s| ==> r == ""
  {
    if start <= |s| then s[start..] else ""
  }

  /** `toLowerCase()` restricted to ASCII letters; every other character is
      kept as it is. */
  function LowerChar(c: char): (r: char)
    ensures 'A' <= c <= 'Z' ==> 'a' <= r <= 'z'
    ensures !('A' <= c <= 'Z') ==> r == c
  {
    if 'A' <= c <= 'Z' then (c as int - 'A' as int + 'a' as int) as char else c
  }

  function ToLower(s: string): (r: string)
    ensures |r| == |s|
    ensures forall i :: 0 <= i < |s| ==> r[i] == LowerChar(s[i])
  {
    seq(|s|, i requires 0 <= i < |s| => LowerChar(s[i]))
  }

  /** No two consecutive '/' characters. */
  predicate NoDoubleSlash(s: string)
  {
    forall i :: 0 <= i < |s| - 1 ==> !(s[i] == '/' && s[i + 1] == '/')
  }

  /** `s.replace(/\/+/g, '/')`: every run of '/' becomes a single '/'.
      The result keeps the first and the last character, so a run that
      begins or ends the string still begins or ends it. */
  function CollapseSlashes(s: string): (r: string)
    ensures NoDoubleSlash(r)
    ensures |r| <= |s|
    ensures |s| > 0 ==> |r| > 0 && r[0] == s[0] && r[|r| - 1] == s[|s| - 1]
    decreases |s|
  {
    if |s| == 0 then ""
    else if |s| >= 2 && s[0] == '/' && s[1] == '/' then CollapseSlashes(s[1..])
    else [s[0]] + CollapseSlashes(s[1..])
  }

  // ---------------------------------------------------------------------
  // Split and Join

  lemma {:induction false} SplitWithoutSep(s: string, sep: char)
    requires sep !in s
    ensures Split(s, sep) == [s]
    decreases |s|
  {
    if |s| > 0 {
      SplitWithoutSep(s[1..], sep);
      assert [s[0]] + s[1..] == s;
    }
  }

  /** Splitting at one separator splits the two sides independently. */
  lemma {:induction false} SplitAppend(a: string, b: string, sep: char)
    ensures Split(a + [sep] + b, sep) == Split(a, sep) + Split(b, sep)
    decreases |a|
  {
    if |a| == 0 {
      assert a + [sep] + b == [sep] + b;
      assert ([sep] + b)[1..] == b;
    } else {
      var whole := a + [sep] + b;
      assert whole[1..] == a[1..] + [sep] + b;
      assert whole[0] == a[0];
      SplitAppend(a[1..], b, sep);
      var ra, rb := Split(a[1..], sep), Split(b, sep);
      var r := Split(whole[1..], sep);
      assert r == ra + rb;
      if a[0] == sep {
        assert Split(whole, sep) == [""] + r;
        assert Split(a, sep) == [""] + ra;
      } else {
        assert Split(whole, sep) == [[a[0]] + r[0]] + r[1..];
        assert r[0] == ra[0];
        assert r[1..] == ra[1..] + rb;
        assert Split(a, sep) == [[a[0]] + ra[0]] + ra[1..];
      }
    }
  }

  /** Joining the pieces of a split gives the string back. */
  lemma {:induction false} JoinSplit(s: string, sep: char)
    ensures Join(Split(s, sep), sep) == s
    decreases |s|
  {
    if |s| > 0 {
      JoinSplit(s[1..], sep);
      var rest := Split(s[1..], sep);
      if s[0] == sep {
        assert Split(s, sep) == [""] + rest;
        assert ([""] + rest)[1..] == rest;
      } else {
        var parts := [[s[0]] + rest[0]] + rest[1..];
        assert Split(s, sep) == parts;
        if |rest| == 1 {
          assert Join(parts, sep) == [s[0]] + rest[0];
        } else {
          assert parts[1..] == rest[1..];
          assert Join(parts, sep) == [s[0]] + rest[0] + [sep] + Join(rest[1..], sep);
        }
        assert [s[0]] + s[1..] == s;
      }
    }
  }

  /** Splitting a join of separator-free pieces gives the pieces back. */
  lemma {:induction false} SplitJoin(parts: seq<string>, sep: char)
    requires |parts| >= 1
    requires forall i :: 0 <= i < |parts| ==> sep !in parts[i]
    ensures Split(Join(parts, sep), sep) == parts
    decreases |parts|
  {
    if |parts| == 1 {
      SplitWithoutSep(parts[0], sep);
    } else {
      SplitJoin(parts[1..], sep);
      SplitWithoutSep(parts[0], sep);
      SplitAppend(parts[0], Join(parts[1..], sep), sep);
      assert [parts[0]] + parts[1..] == parts;
    }
  }

  /** Appending one piece adds one separator and that piece at the end. */
  lemma {:induction false} JoinSnoc(parts: seq<string>, x: string, sep: char)
    requires |parts| >= 1
    ensures Join(parts + [x], sep) == Join(parts, sep) + [sep] + x
    decreases |parts|
  {
    if |parts| == 1 {
      assert (parts + [x])[1..] == [x];
    } else {
      assert (parts + [x])[1..] == parts[1..] + [x];
      JoinSnoc(parts[1..], x, sep);
    }
  }

  /** A join of non-empty, separator-free pieces never has two separators in
      a row, and neither begins nor ends with one. */
  lemma {:induction false} JoinClean(parts: seq<string>)
    requires |parts| >= 1
    requires forall i :: 0 <= i < |parts| ==> parts[i] != "" && '/' !in parts[i]
    ensures NoDoubleSlash(Join(parts, '/'))
    ensures |Join(parts, '/')| > 0
    ensures Join(parts, '/')[0] == parts[0][0]
    ensures Join(parts, '/')[|Join(parts, '/')| - 1] != '/'
    decreases |parts|
  {
    if |parts| > 1 {
      JoinClean(parts[1..]);
      var p, j := parts[0], Join(parts[1..], '/');
      var s := p + ['/'] + j;
      assert Join(parts, '/') == s;
      forall i | 0 <= i < |s| - 1
        ensures !(s[i] == '/' && s[i + 1] == '/')
      {
        if i < |p| - 1 {
          assert s[i] == p[i];
        } else if i == |p| - 1 {
          assert s[i] == p[i];
          assert p[i] in p;
        } else if i == |p| {
          assert s[i + 1] == j[0];
        } else {
          assert s[i] == j[i - |p| - 1] && s[i + 1] == j[i - |p|];
        }
      }
      assert s[|s| - 1] == j[|j| - 1];
    } else {
      var p := parts[0];
      assert Join(parts, '/') == p;
      forall i | 0 <= i < |p| - 1
        ensures !(p[i] == '/' && p[i + 1] == '/')
      {
        assert p[i] in p;
      }
      assert p[|p| - 1] in p;
    }
  }

  // ---------------------------------------------------------------------
  // Filtering empty parts

  lemma {:induction false} NonEmptyAppend(a: seq<string>, b: seq<string>)
    ensures NonEmpty(a + b) == NonEmpty(a) + NonEmpty(b)
    decreases |a|
  {
    if |a| == 0 {
      assert a + b == b;
    } else {
      assert (a + b)[0] == a[0];
      assert (a + b)[1..] == a[1..] + b;
      NonEmptyAppend(a[1..], b);
      if a[0] != "" {
        assert NonEmpty(a + b) == [a[0]] + NonEmpty(a[1..] + b);
        assert NonEmpty(a) == [a[0]] + NonEmpty(a[1..]);
      }
    }
  }

  /** Filtering keeps a sequence that has no empty string unchanged. */
  lemma {:induction false} NonEmptyIdentity(parts: seq<string>)
    requires forall i :: 0 <= i < |parts| ==> parts[i] != ""
    ensures NonEmpty(parts) == parts
    decreases |parts|
  {
    if |parts| > 0 {
      NonEmptyIdentity(parts[1..]);
      assert [parts[0]] + parts[1..] == parts;
    }
  }

  /** Every kept part is one of the input parts. */
  lemma {:induction false} NonEmptyMembers(parts: seq<string>, x: string)
    requires x in NonEmpty(parts)
    ensures x in parts && x != ""
    decreases |parts|
  {
    if parts[0] != "" && x == parts[0] {
    } else {
      NonEmptyMembers(parts[1..], x);
    }
  }

  // ---------------------------------------------------------------------
  // Collapsing runs of '/'

  /** A string that has no double slash is left unchanged. */
  lemma {:induction false} CollapseNoDouble(s: string)
    requires NoDoubleSlash(s)
    ensures CollapseSlashes(s) == s
    decreases |s|
  {
    if |s| > 0 {
      assert NoDoubleSlash(s[1..]) by {
        forall i | 0 <= i < |s[1..]| - 1
          ensures !(s[1..][i] == '/' && s[1..][i + 1] == '/')
        {
          assert s[1..][i] == s[i + 1] && s[1..][i + 1] == s[i + 2];
        }
      }
      CollapseNoDouble(s[1..]);
      assert [s[0]] + s[1..] == s;
    }
  }

  /** Collapsing twice is collapsing once. */
  lemma CollapseIdempotent(s: string)
    ensures CollapseSlashes(CollapseSlashes(s)) == CollapseSlashes(s)
  {
    CollapseNoDouble(CollapseSlashes(s));
  }

  /** Collapsing keeps the first piece and all later non-empty pieces of a
      split at '/'. */
  lemma {:induction false} CollapsePieces(s: string)
    ensures Split(CollapseSlashes(s), '/')[0] == Split(s, '/')[0]
    ensures NonEmpty(Split(CollapseSlashes(s), '/')[1..]) == NonEmpty(Split(s, '/')[1..])
    decreases |s|
  {
    if |s| > 0 {
      var t := s[1..];
      CollapsePieces(t);
      var ct := CollapseSlashes(t);
      var pt, pct := Split(t, '/'), Split(ct, '/');
      if |s| >= 2 && s[0] == '/' && s[1] == '/' {
        assert CollapseSlashes(s) == ct;
        assert Split(s, '/') == [""] + pt;
        assert Split(s, '/')[1..] == pt;
        assert pt == [""] + Split(t[1..], '/');
        assert pt[0] == "";
        assert pt == [pt[0]] + pt[1..];
        NonEmptyAppend([pt[0]], pt[1..]);
      } else if s[0] == '/' {
        assert CollapseSlashes(s) == ['/'] + ct;
        assert Split(['/'] + ct, '/') == [""] + pct by {
          assert (['/'] + ct)[1..] == ct;
        }
        assert Split(s, '/') == [""] + pt;
        assert ([""] + pct)[1..] == pct;
        assert ([""] + pt)[1..] == pt;
        assert pct == [pct[0]] + pct[1..];
        assert pt == [pt[0]] + pt[1..];
        NonEmptyAppend([pct[0]], pct[1..]);
        NonEmptyAppend([pt[0]], pt[1..]);
      } else {
        assert CollapseSlashes(s) == [s[0]] + ct;
        assert Split([s[0]] + ct, '/') == [[s[0]] + pct[0]] + pct[1..] by {
          assert ([s[0]] + ct)[1..] == ct;
        }
        assert Split(s, '/') == [[s[0]] + pt[0]] + pt[1..];
      }
    }
  }

  /** Collapsing changes no non-empty path segment: the segments that remain
      after dropping empty ones are the same, in the same order. */
  lemma CollapseKeepsSegments(s: string)
    ensures NonEmpty(Split(CollapseSlashes(s), '/')) == NonEmpty(Split(s, '/'))
  {
    CollapsePieces(s);
    var a, b := Split(CollapseSlashes(s), '/'), Split(s, '/');
    assert a == [a[0]] + a[1..];
    assert b == [b[0]] + b[1..];
    NonEmptyAppend([a[0]], a[1..]);
    NonEmptyAppend([b[0]], b[1..]);
  }

  /** Collapsing works piecewise when the seam is not inside a run of '/'. */
  lemma {:induction false} CollapseAppend(a: string, b: string)
    requires |a| > 0 && |b| > 0 ==> !(a[|a| - 1] == '/' && b[0] == '/')
    ensures CollapseSlashes(a + b) == CollapseSlashes(a) + CollapseSlashes(b)
    decreases |a|
  {
    if |a| == 0 {
      assert a + b == b;
    } else if |a| == 1 {
      assert (a + b)[1..] == b;
      assert a[1..] == "";
    } else {
      var ab := a + b;
      assert ab[1..] == a[1..] + b;
      assert ab[0] == a[0] && ab[1] == a[1];
      CollapseAppend(a[1..], b);
      if a[0] == '/' && a[1] == '/' {
        assert CollapseSlashes(ab) == CollapseSlashes(a[1..] + b);
        assert CollapseSlashes(a) == CollapseSlashes(a[1..]);
      } else {
        assert CollapseSlashes(ab) == [a[0]] + CollapseSlashes(a[1..] + b);
        assert CollapseSlashes(a) == [a[0]] + CollapseSlashes(a[1..]);
      }
    }
  }
}
