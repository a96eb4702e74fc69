/** The content-type classifier of the image uploader: the extension of a file
    name, lower-cased, looked up in a fixed table of seven image extensions,
    with "application/octet-stream" for everything else. */
module ImageUtils {
  import opened Strings

  const OctetStream := "application/octet-stream"

  /** The media type "image/<subtype>". */
  function Image(subtype: string): string
  {
    "image/" + subtype
  }

  /** The eight strings the classifier can return. */
  const MimeTypes: set<string> :=
    {Image("jpeg"), Image("png"), Image("gif"), Image("webp"), Image("svg+xml"),
     Image("tiff"), Image("bmp"), OctetStream}

  /** The lower-case extensions that the table lists. */
  const ImageExtensions: set<string> :=
    {".jpg", ".jpeg", ".png", ".gif", ".webp", ".svg", ".tiff", ".bmp"}

  /** Drops every trailing '/' (the scan of `extname` skips them). */
  function TrimTrailingSlashes(s: string): (r: string)
    ensures |r| <= |s| && r == s[..|r|]
    ensures |r| == 0 || r[|r| - 1] != '/'
    decreases |s|
  {
    if |s| > 0 && s[|s| - 1] == '/' then TrimTrailingSlashes(s[..|s| - 1]) else s
  }

  /** The index of the last occurrence of `c` in `s`, or -1. */
  function LastIndexOf(s: string, c: char): (k: int)
    ensures -1 <= k < |s|
    ensures k >= 0 ==> s[k] == c
    ensures forall j :: k < j < |s| ==> s[j] != c
    decreases |s|
  {
    if |s| == 0 then -1
    else if s[|s| - 1] == c then |s| - 1
    else LastIndexOf(s[..|s| - 1], c)
  }

  /** `extname(path)` of the POSIX path module: the part of the last name
      from its last '.', ignoring trailing '/'; "" when the name has no '.',
      when its only leading '.' is the last one (".bashrc"), and for "..". */
  function Extname(path: string): (ext: string)
    ensures ext != "" ==> ext[0] == '.' && '/' !in ext
    ensures forall i :: 1 <= i < |ext| ==> ext[i] != '.'
  {
    var base := LastPiece(TrimTrailingSlashes(path), '/');
    var dot := LastIndexOf(base, '.');
    if base == ".." || dot <= 0 then ""
    else
      assert '/' !in base by {
        var parts := Split(TrimTrailingSlashes(path), '/');
        assert base == parts[|parts| - 1];
      }
      base[dot..]
  }

  /** The `switch` on the lower-cased extension. */
  function ContentTypeOf(ext: string): string
  {
    match ext
    case ".jpg" => Image("jpeg")
    case ".jpeg" => Image("jpeg")
    case ".png" => Image("png")
    case ".gif" => Image("gif")
    case ".webp" => Image("webp")
    case ".svg" => Image("svg+xml")
    case ".tiff" => Image("tiff")
    case ".bmp" => Image("bmp")
    case _ => OctetStream
  }

  /** No image type is the fallback type, and only image types start with
      "image/". */
  lemma ImageTypes()
    ensures forall subtype :: Image(subtype) != OctetStream && StartsWith(Image(subtype), "image/")
    ensures !StartsWith(OctetStream, "image/")
  {
    forall subtype
      ensures Image(subtype) != OctetStream && StartsWith(Image(subtype), "image/")
    {
      assert Image(subtype)[0] == 'i' != OctetStream[0];
      assert Image(subtype)[..6] == "image/";
    }
    assert OctetStream[0] == 'a';
  }

  /** `getImageMimeType(filename)`: total, and always one of eight strings. */
  function GetImageMimeType(filename: string): (mime: string)
    ensures mime in MimeTypes
    ensures mime != OctetStream <==> ToLower(Extname(filename)) in ImageExtensions
  {
    ImageTypes();
    ContentTypeOf(ToLower(Extname(filename)))
  }

  /** `isImageFile(filename)`: the MIME type starts with "image/". */
  predicate IsImageFile(filename: string)
  {
    StartsWith(GetImageMimeType(filename), "image/")
  }

  // ---------------------------------------------------------------------

  /** A file is an image exactly when its lower-cased extension is one of the
      listed ones. */
  lemma IsImageFileIffListed(filename: string)
    ensures IsImageFile(filename) <==> ToLower(Extname(filename)) in ImageExtensions
  {
    ImageTypes();
    var mime := GetImageMimeType(filename);
    if mime != OctetStream {
      assert mime in MimeTypes - {OctetStream};
    }
  }

  /** Each extension in the table, in any letter case, gives its own type;
      ".jpg" and ".jpeg" share "image/jpeg". */
  lemma TableEntries()
    ensures ContentTypeOf(".jpg") == ContentTypeOf(".jpeg") == Image("jpeg") == "image/jpeg"
    ensures ContentTypeOf(".png") == Image("png")
    ensures ContentTypeOf(".gif") == Image("gif")
    ensures ContentTypeOf(".webp") == Image("webp")
    ensures ContentTypeOf(".svg") == Image("svg+xml")
    ensures ContentTypeOf(".tiff") == Image("tiff")
    ensures ContentTypeOf(".bmp") == Image("bmp")
    ensures forall e :: e !in ImageExtensions ==> ContentTypeOf(e) == OctetStream
  {
  }

  /** Appending characters without '/' extends the last '/'-piece. */
  lemma {:induction false} LastPieceAppend(a: string, b: string)
    requires '/' !in b
    ensures LastPiece(a + b, '/') == LastPiece(a, '/') + b
    decreases |a|
  {
    if |a| == 0 {
      SplitWithoutSep(b, '/');
      assert a + b == b;
    } else {
      var t := a[1..];
      assert (a + b)[1..] == t + b;
      assert (a + b)[0] == a[0];
      LastPieceAppend(t, b);
      PiecesCount(t + b);
      PiecesCount(t);
      SlashCountAppend(t, b);
      var pt, ptb := Split(t, '/'), Split(t + b, '/');
      assert |ptb| == |pt|;
      if a[0] == '/' {
        assert Split(a + b, '/') == [""] + ptb;
        assert Split(a, '/') == [""] + pt;
      } else {
        assert Split(a + b, '/') == [[a[0]] + ptb[0]] + ptb[1..];
        assert Split(a, '/') == [[a[0]] + pt[0]] + pt[1..];
      }
    }
  }

  function SlashCount(s: string): nat
    decreases |s|
  {
    if |s| == 0 then 0 else (if s[0] == '/' then 1 else 0) + SlashCount(s[1..])
  }

  lemma {:induction false} SlashCountAppend(a: string, b: string)
    requires '/' !in b
    ensures SlashCount(a + b) == SlashCount(a)
    decreases |a|
  {
    if |a| == 0 {
      assert a + b == b;
      SlashCountNone(b);
    } else {
      assert (a + b)[1..] == a[1..] + b;
      SlashCountAppend(a[1..], b);
    }
  }

  lemma {:induction false} SlashCountNone(b: string)
    requires '/' !in b
    ensures SlashCount(b) == 0
    decreases |b|
  {
    if |b| > 0 {
      assert b[0] in b;
      SlashCountNone(b[1..]);
    }
  }

  lemma {:induction false} PiecesCount(s: string)
    ensures |Split(s, '/')| == SlashCount(s) + 1
    decreases |s|
  {
    if |s| > 0 {
      PiecesCount(s[1..]);
    }
  }

  /** Only the last extension counts, in any letter case: a name ending in
      "." and an extension without '.' or '/' is classified by that extension
      alone, so "photo.JPG" is "image/jpeg" and "a.png.txt" is
      "application/octet-stream". */
  lemma LastExtensionDecides(name: string, e: string)
    requires |name| > 0 && name[|name| - 1] != '/'
    requires |e| > 0 && '.' !in e && '/' !in e
    ensures Extname(name + "." + e) == "." + e
    ensures GetImageMimeType(name + "." + e) == ContentTypeOf(ToLower("." + e))
  {
    var ext := "." + e;
    var path := name + ext;
    assert name + "." + e == path;
    assert '/' !in ext;
    assert ext[|ext| - 1] == e[|e| - 1];
    assert TrimTrailingSlashes(path) == path;
    var init, c := name[..|name| - 1], name[|name| - 1];
    assert name == init + [c];
    LastPieceAppend(init, [c]);
    var base0 := LastPiece(name, '/');
    assert |base0| > 0;
    LastPieceAppend(name, ext);
    var base := LastPiece(path, '/');
    assert base == base0 + ext;
    assert |base| > 2;
    assert forall j :: 1 <= j < |ext| ==> ext[j] == e[j - 1];
    LastDotAfter(base0, ext);
    assert base[|base0|..] == ext;
  }

  /** The last occurrence is the one with no later occurrence. */
  lemma {:induction false} LastIndexOfIs(s: string, c: char, k: nat)
    requires k < |s| && s[k] == c
    requires forall j :: k < j < |s| ==> s[j] != c
    ensures LastIndexOf(s, c) == k
    decreases |s|
  {
    if k < |s| - 1 {
      var init := s[..|s| - 1];
      assert forall j :: k < j < |init| ==> init[j] == s[j];
      LastIndexOfIs(init, c, k);
    }
  }

  lemma LastDotAfter(a: string, ext: string)
    requires |ext| > 0 && ext[0] == '.'
    requires forall j :: 1 <= j < |ext| ==> ext[j] != '.'
    ensures LastIndexOf(a + ext, '.') == |a|
  {
    var s := a + ext;
    assert forall j :: |a| <= j < |s| ==> s[j] == ext[j - |a|];
    LastIndexOfIs(s, '.', |a|);
  }

  /** A name with no '.' at all has no extension and is not an image. */
  lemma NoDotNoExtension(name: string)
    requires '.' !in name
    ensures Extname(name) == ""
    ensures GetImageMimeType(name) == OctetStream && !IsImageFile(name)
  {
    var t := TrimTrailingSlashes(name);
    var base := LastPiece(t, '/');
    var parts := Split(t, '/');
    assert base == parts[|parts| - 1];
    assert '.' !in base by {
      if '.' in base {
        var j :| 0 <= j < |base| && base[j] == '.';
        PieceCharFrom(t, |parts| - 1, j);
      }
    }
    IsImageFileIffListed(name);
  }

  /** A hidden file whose only '.' is its first character (".png") has no
      extension either. */
  lemma DotFileNoExtension(e: string)
    requires '.' !in e && '/' !in e
    ensures Extname("." + e) == ""
    ensures GetImageMimeType("." + e) == OctetStream
  {
    var name := "." + e;
    assert '/' !in name;
    assert TrimTrailingSlashes(name) == name;
    SplitWithoutSep(name, '/');
    forall j | 0 < j < |name|
      ensures name[j] != '.'
    {
      assert name[j] == e[j - 1];
    }
    LastIndexOfIs(name, '.', 0);
  }

  /** Every character of a piece comes from the split string. */
  lemma {:induction false} PieceCharFrom(s: string, i: nat, j: nat)
    requires i < |Split(s, '/')| && j < |Split(s, '/')[i]|
    ensures Split(s, '/')[i][j] in s
    decreases |s|
  {
    var rest := Split(s[1..], '/');
    if s[0] == '/' {
      PieceCharFrom(s[1..], i - 1, j);
    } else if i == 0 && j == 0 {
    } else if i == 0 {
      PieceCharFrom(s[1..], 0, j - 1);
    } else {
      PieceCharFrom(s[1..], i, j);
    }
  }

  /** Spot checks: an upper-case extension is still an image. */
  lemma UpperCaseExample()
    ensures GetImageMimeType("photo.JPG") == "image/jpeg" && IsImageFile("photo.JPG")
  {
    LastExtensionDecides("photo", "JPG");
    assert "photo" + "." + "JPG" == "photo.JPG";
    assert "." + "JPG" == ".JPG";
    assert ToLower(".JPG") == ".jpg";
    assert ContentTypeOf(".jpg") == "image/jpeg";
    assert StartsWith("image/jpeg", "image/");
  }

  /** Spot checks: only the last extension counts. */
  lemma DoubleExtensionExample()
    ensures GetImageMimeType("a.png.txt") == OctetStream
  {
    LastExtensionDecides("a.png", "txt");
    assert "a.png" + "." + "txt" == "a.png.txt";
    TextNotListed("." + "txt");
  }

  lemma TextNotListed(ext: string)
    requires ext == ['.', 't', 'x', 't']
    ensures ContentTypeOf(ToLower(ext)) == OctetStream
  {
    assert ToLower(ext) == ext;
    forall e | e in ImageExtensions
      ensures e != ext
    {
      assert |e| != 4 || e[1] != 't';
    }
  }

  /** Spot checks: no extension, and a hidden file named after one. */
  lemma NoExtensionExamples()
    ensures GetImageMimeType("archive") == OctetStream
    ensures GetImageMimeType(".png") == OctetStream
  {
    NoDotNoExtension("archive");
    DotFileNoExtension("png");
    assert "." + "png" == ".png";
  }
}
