/** POSIX path names as `pathlib` splits them, and the image-extension filter. */
module PathNames {

  type Path = string

  /** Index of the last occurrence of `c` in `s`, or -1 when there is none (`str.rfind`). */
  function RFind(s: string, c: char): (r: int)
    ensures -1 <= r < |s|
    ensures r >= 0 ==> s[r] == c
    ensures forall k :: r < k < |s| ==> s[k] != c
    decreases |s|
  {
    if |s| == 0 then -1
    else if s[|s| - 1] == c then |s| - 1
    else RFind(s[..|s| - 1], c)
  }

  /** The last occurrence is unique: any `c` with no `c` after it is the one `RFind` finds. */
  lemma RFindIsLast(s: string, c: char, i: int)
    requires 0 <= i < |s| && s[i] == c
    requires forall k :: i < k < |s| ==> s[k] != c
    ensures RFind(s, c) == i
  {
  }

  /** Nothing after the last occurrence of `c` is `c`. */
  lemma NoneAfterLast(s: string, c: char)
    ensures c !in s[RFind(s, c) + 1..]
  {
    var i := RFind(s, c);
    var t := s[i + 1..];
    forall j | 0 <= j < |t|
      ensures t[j] != c
    {
      assert t[j] == s[i + 1 + j];
    }
  }

  /** The final component of a path: the text after its last '/' (`PurePath.name`). */
  function Name(p: Path): (n: string)
    ensures |n| <= |p|
    ensures '/' !in n
  {
    NoneAfterLast(p, '/');
    p[RFind(p, '/') + 1..]
  }

  /** The final component is a tail of the path, and is the whole path or follows a separator. */
  lemma NameIsFinalComponent(p: Path)
    ensures Name(p) == p[|p| - |Name(p)|..]
    ensures |Name(p)| == |p| || p[|p| - |Name(p)| - 1] == '/'
  {
  }

  /**
   * The extension of a file name (`PurePath.suffix`): the text from the last '.',
   * and only when that dot is neither the first nor the last character.
   */
  function Suffix(name: string): (s: string)
    ensures s == "" || (2 <= |s| < |name| && s[0] == '.' && '.' !in s[1..])
    ensures s != "" <==> (|name| >= 2 && '.' in name[1..] && name[|name| - 1] != '.')
  {
    var i := RFind(name, '.');
    NoneAfterLast(name, '.');
    if 0 < i < |name| - 1 then
      assert name[i..][1..] == name[i + 1..];
      assert name[1..][i - 1] == '.';
      name[i..]
    else
      SuffixEmptyCase(name, i);
      ""
  }

  /** When the last dot is missing, first or last, the name has no dot after its first character or ends in one. */
  lemma SuffixEmptyCase(name: string, i: int)
    requires i == RFind(name, '.')
    requires !(0 < i < |name| - 1)
    ensures !(|name| >= 2 && '.' in name[1..] && name[|name| - 1] != '.')
  {
    if |name| >= 2 && name[|name| - 1] != '.' {
      assert i != |name| - 1;
      assert i <= 0;
      forall j | 0 <= j < |name[1..]|
        ensures name[1..][j] != '.'
      {
        assert name[1..][j] == name[j + 1];
      }
    }
  }

  /** A non-empty suffix is the tail of the name. */
  lemma SuffixIsTail(name: string)
    ensures Suffix(name) == name[|name| - |Suffix(name)|..]
  {
  }

  /** ASCII case folding of one character. */
  function LowerChar(c: char): (l: char)
  {
    if 'A' <= c <= 'Z' then (c as int + 32) as char else c
  }

  /** `str.lower()` restricted to ASCII letters. */
  function Lower(s: string): (r: string)
  {
    seq(|s|, i requires 0 <= i < |s| => LowerChar(s[i]))
  }

  /** The allow-list of image extensions, compared against the lowercased suffix. */
  const ImageExtensions: seq<string> := [".jpg", ".jpeg", ".png", ".gif", ".bmp"]

  /**
   * The suffix of a path's final component, read off the whole path: the last '.' of the
   * path, when it lies after the first character of the final component and is not the
   * path's last character.
   */
  function PathSuffix(p: Path): (s: string)
  {
    var dot := RFind(p, '.');
    var start := RFind(p, '/') + 1;
    if start < dot < |p| - 1 then p[dot..] else ""
  }

  /** Reading the suffix off the whole path agrees with `pathlib`'s `name` then `suffix`. */
  lemma PathSuffixIsNameSuffix(p: Path)
    ensures PathSuffix(p) == Suffix(Name(p))
  {
    var start := RFind(p, '/') + 1;
    var dot := RFind(p, '.');
    var name := Name(p);
    assert name == p[start..];
    if dot >= start {
      forall k | dot - start < k < |name|
        ensures name[k] != '.'
      {
        assert name[k] == p[start + k];
      }
      assert name[dot - start] == p[dot];
      RFindIsLast(name, '.', dot - start);
      assert name[dot - start..] == p[dot..];
    } else {
      forall k | 0 <= k < |name|
        ensures name[k] != '.'
      {
        assert name[k] == p[start + k];
      }
      assert RFind(name, '.') == -1;
    }
  }

  /** A directory entry is indexed when the lowercased suffix of its name is on the allow-list. */
  predicate IsImage(p: Path)
  {
    Lower(PathSuffix(p)) in ImageExtensions
  }

  /** The filter is `pathlib`'s rule: `p.suffix.lower() in image_extensions`. */
  lemma IsImageIsPathlibRule(p: Path)
    ensures IsImage(p) <==> Lower(Suffix(Name(p))) in ImageExtensions
  {
    PathSuffixIsNameSuffix(p);
  }

  /** `s` ends with `e` when compared after lowercasing. */
  predicate EndsWithIgnoringCase(s: string, e: string)
  {
    |e| <= |s| && Lower(s[|s| - |e|..]) == e
  }

  /** Every allow-listed extension is a dot followed by at least one non-dot character. */
  lemma ExtensionsAreDotted(e: string)
    requires e in ImageExtensions
    ensures 2 <= |e| && e[0] == '.' && '.' !in e[1..]
  {
  }

  /** A name that ends (ignoring case) with a dotted extension, with text before it, has that suffix. */
  lemma SuffixOfDottedEnding(name: string, e: string)
    requires 2 <= |e| && e[0] == '.' && '.' !in e[1..]
    requires |e| < |name| && EndsWithIgnoringCase(name, e)
    ensures Suffix(name) == name[|name| - |e|..]
  {
    var i := |name| - |e|;
    var tail := name[i..];
    assert Lower(tail)[0] == LowerChar(name[i]) == '.';
    assert name[i] == '.';
    forall k | i < k < |name|
      ensures name[k] != '.'
    {
      assert Lower(tail)[k - i] == LowerChar(name[k]);
      assert e[k - i] == e[1..][k - i - 1];
    }
    RFindIsLast(name, '.', i);
  }

  /**
   * The filter read independently of `pathlib`: a path is indexed exactly when its
   * final component ends, ignoring case, with an allow-listed extension and has at
   * least one character before that extension.
   */
  lemma IsImageIffEndsWithExtension(p: Path)
    ensures IsImage(p) <==>
      exists e :: e in ImageExtensions && |e| < |Name(p)| && EndsWithIgnoringCase(Name(p), e)
  {
    var name := Name(p);
    IsImageIsPathlibRule(p);
    if IsImage(p) {
      var e := Lower(Suffix(name));
      ExtensionsAreDotted(e);
      assert |e| < |name| && EndsWithIgnoringCase(name, e);
    }
    if e :| e in ImageExtensions && |e| < |name| && EndsWithIgnoringCase(name, e) {
      ExtensionEndingIsImage(p, e);
    }
  }

  /** A path whose final component ends, ignoring case, with an allow-listed extension after some text is indexed. */
  lemma ExtensionEndingIsImage(p: Path, e: string)
    requires e in ImageExtensions && |e| < |Name(p)| && EndsWithIgnoringCase(Name(p), e)
    ensures IsImage(p)
  {
    var name := Name(p);
    IsImageIsPathlibRule(p);
    ExtensionsAreDotted(e);
    SuffixOfDottedEnding(name, e);
    assert Lower(Suffix(name)) == e;
  }

  /** Case is ignored: an upper-case `.JPG` file is indexed. */
  lemma UpperCaseExtensionIsImage()
    ensures IsImage("photos/photo.JPG")
  {
    var p := "photos/photo.JPG";
    RFindIsLast(p, '/', 6);
    RFindIsLast(p, '.', 12);
    assert PathSuffix(p) == ".JPG";
    assert Lower(".JPG") == ".jpg";
  }

  /** A text file is not indexed. */
  lemma TextFileIsNotImage()
    ensures !IsImage("photos/notes.txt")
  {
    var p := "photos/notes.txt";
    RFindIsLast(p, '/', 6);
    RFindIsLast(p, '.', 12);
    assert PathSuffix(p) == ".txt";
    assert Lower(".txt") == ".txt";
  }

  /** An archive is not indexed. */
  lemma ArchiveIsNotImage()
    ensures !IsImage("photos/archive.zip")
  {
    var p := "photos/archive.zip";
    RFindIsLast(p, '/', 6);
    RFindIsLast(p, '.', 14);
    assert PathSuffix(p) == ".zip";
    assert Lower(".zip") == ".zip";
  }

  /** A dot-file named `.jpg` has no suffix, so it is not indexed. */
  lemma DotFileIsNotImage()
    ensures !IsImage("photos/.jpg")
  {
    var p := "photos/.jpg";
    RFindIsLast(p, '/', 6);
    RFindIsLast(p, '.', 7);
    assert PathSuffix(p) == "";
  }
}
