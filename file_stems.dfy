/**
 * The pipeline's ways of cutting a file name down to a stem, and its ASCII
 * filter:
 *  - get_filename (utils/process_images.py and imageplot.py): the base name
 *    without its final extension, as os.path.splitext cuts it, so a name
 *    whose only dots lead it (".bashrc") keeps them;
 *  - get_base_filename (utils/parse_metadata.py): the base name split on
 *    '.' with the last piece dropped, so ".bashrc" becomes "";
 *  - the first '.'-piece of a base name (imageplot.py's position records);
 *  - get_ascii_chars: the characters below code 128, in order.
 */
module FileStems {
  import opened Results
  import opened Strings
  import opened PixplotImages

  /** Some character of s is not a '.'. */
  predicate HasNonDot(s: string)
  {
    exists k :: 0 <= k < |s| && s[k] != '.'
  }

  /**
   * os.path.splitext(base)[0] for a name without '/': cut at the last '.'
   * when a character other than '.' precedes it, otherwise keep the name.
   */
  function SplitExtRoot(base: string): string
  {
    match LastIndexOf(base, '.')
    case None => base
    case Some(d) =>
      if HasNonDot(base[..d]) then base[..d] else base
  }

  /**
   * The root is a prefix of the name; when it is shorter, what was cut is
   * one '.' and an extension without '.', after a root that is not all dots;
   * when nothing was cut, no such split point exists.
   */
  lemma SplitExtRootSpec(base: string)
    ensures var stem := SplitExtRoot(base);
            |stem| <= |base| && base[..|stem|] == stem &&
            (stem != base ==> base[|stem|] == '.' && '.' !in base[|stem| + 1..] && HasNonDot(stem)) &&
            (stem == base ==>
               forall d :: 0 <= d < |base| && base[d] == '.' && '.' !in base[d + 1..] ==> !HasNonDot(base[..d]))
  {
    LastIndexOfSpec(base, '.');
    match LastIndexOf(base, '.')
    case None =>
    case Some(d) =>
      assert forall j :: d < j < |base| ==> base[d + 1..][j - d - 1] == base[j];
      forall e | 0 <= e < |base| && base[e] == '.' && '.' !in base[e + 1..]
        ensures e == d
      {
      }
  }

  /**
   * get_filename(path): the root of the base name. It has no '/', and it is
   * the base name or the base name cut before a '.'.
   */
  function GetFilename(path: string): (stem: string)
    ensures var base := Basename(path);
            '/' !in stem && |stem| <= |base| && base[..|stem|] == stem &&
            (stem != base ==> base[|stem|] == '.')
  {
    BasenameSpec(path);
    SplitExtRootSpec(Basename(path));
    SplitExtRoot(Basename(path))
  }

  /**
   * A path dir/name.ext gives back name, as long as name is not all dots and
   * ext is one '.' and a '.'-free extension (a thumbnail's .jpg, a vector
   * file's .npy).
   */
  lemma GetFilenameOfExtension(dir: string, name: string, ext: string)
    requires '/' !in name && HasNonDot(name)
    requires '/' !in ext && |ext| >= 1 && ext[0] == '.' && '.' !in ext[1..]
    ensures GetFilename(PathJoin(dir, name + ext)) == name
  {
    assert '/' !in name + ext;
    BasenameOfJoin(dir, name + ext);
    ExtensionRoot(name, ext);
  }

  /** Cutting a name followed by an extension (one '.' and no other) gives back the name. */
  lemma ExtensionRoot(name: string, ext: string)
    requires HasNonDot(name) && |ext| >= 1 && ext[0] == '.' && '.' !in ext[1..]
    ensures SplitExtRoot(name + ext) == name
  {
    var base := name + ext;
    assert base[..|name|] == name && base[|name| + 1..] == ext[1..];
    RootAt(base, |name|);
  }

  /** A '.' with no '.' after it and something other than '.' before it is where the root ends. */
  lemma RootAt(base: string, d: nat)
    requires d < |base| && base[d] == '.' && '.' !in base[d + 1..] && HasNonDot(base[..d])
    ensures SplitExtRoot(base) == base[..d]
  {
    LastIndexOfSpec(base, '.');
    assert forall j :: d < j < |base| ==> base[j] != '.' by {
      forall j | d < j < |base|
        ensures base[j] != '.'
      {
        assert base[d + 1..][j - d - 1] == base[j];
      }
    }
  }

  /** get_base_filename(path): drop the last '.'-piece of the base name, if it has a '.'. */
  function GetBaseFilename(path: string): (stem: string)
    ensures var base := Basename(path);
            |stem| <= |base| && base[..|stem|] == stem && ('.' in base <==> |stem| < |base|)
  {
    var base := Basename(path);
    LastIndexOfSpec(base, '.');
    if '.' in base then
      var parts := Split(base, '.');
      var d := LastIndexOf(base, '.').value;
      assert parts[..|parts| - 1] == Split(base[..d], '.');
      SplitJoin(base[..d], '.');
      Join(parts[..|parts| - 1], '.')
    else base
  }

  /** Only the last piece goes: the result is the base name cut at its last '.'. */
  lemma GetBaseFilenameCutsAtLastDot(path: string)
    ensures var base := Basename(path);
            match LastIndexOf(base, '.')
            case None => GetBaseFilename(path) == base
            case Some(d) => GetBaseFilename(path) == base[..d]
  {
    var base := Basename(path);
    LastIndexOfSpec(base, '.');
    match LastIndexOf(base, '.')
    case None =>
    case Some(d) =>
      var parts := Split(base, '.');
      assert parts[..|parts| - 1] == Split(base[..d], '.');
      SplitJoin(base[..d], '.');
  }

  /**
   * Where the two stems agree and where they part: with no '.' both keep the
   * base name; with a character other than '.' before the last '.' both
   * cut there; a name whose only dots lead it (".bashrc") is kept whole by
   * get_filename and emptied up to its last dot by get_base_filename.
   */
  lemma StemsCompared(path: string)
    ensures var base := Basename(path);
            match LastIndexOf(base, '.')
            case None => GetFilename(path) == GetBaseFilename(path) == base
            case Some(d) =>
              (HasNonDot(base[..d]) ==> GetFilename(path) == GetBaseFilename(path)) &&
              (!HasNonDot(base[..d]) ==> GetFilename(path) == base && GetBaseFilename(path) == base[..d])
  {
    GetBaseFilenameCutsAtLastDot(path);
  }

  /** imageplot.py's record name: the part of the base name before its first '.'. */
  function FirstPiece(path: string): (r: string)
    ensures var base := Basename(path);
            '.' !in r && |r| <= |base| && base[..|r|] == r && (r == base || base[|r|] == '.')
  {
    SplitFirst(Basename(path), '.');
    Split(Basename(path), '.')[0]
  }

  lemma {:induction false} SplitFirst(s: string, sep: char)
    ensures var r := Split(s, sep)[0];
            sep !in r && |r| <= |s| && s[..|r|] == r && (r == s || s[|r|] == sep)
    decreases |s|
  {
    LastIndexOfSpec(s, sep);
    match LastIndexOf(s, sep)
    case None =>
    case Some(i) =>
      SplitFirst(s[..i], sep);
      assert Split(s, sep)[0] == Split(s[..i], sep)[0];
  }

  /** get_ascii_chars(s): the characters of s with code below 128, in order. */
  function AsciiChars(s: string): (r: string)
    ensures |r| <= |s|
    ensures forall k :: 0 <= k < |r| ==> r[k] as int < 128
  {
    if |s| == 0 then "" else (if s[0] as int < 128 then [s[0]] else "") + AsciiChars(s[1..])
  }

  /** The filter works piece by piece: what it keeps of a + b is what it keeps of a, then of b. */
  lemma {:induction false} AsciiCharsAppend(a: string, b: string)
    ensures AsciiChars(a + b) == AsciiChars(a) + AsciiChars(b)
    decreases |a|
  {
    if |a| == 0 {
      assert a + b == b;
    } else {
      var head := if a[0] as int < 128 then [a[0]] else "";
      assert (a + b)[0] == a[0] && (a + b)[1..] == a[1..] + b;
      AsciiCharsAppend(a[1..], b);
      assert AsciiChars(a + b) == head + (AsciiChars(a[1..]) + AsciiChars(b));
      assert AsciiChars(a) == head + AsciiChars(a[1..]);
    }
  }

  /** A character survives exactly when it occurs in s and is below 128. */
  lemma {:induction false} AsciiCharsMembers(s: string, c: char)
    ensures c in AsciiChars(s) <==> c in s && c as int < 128
    decreases |s|
  {
    if |s| > 0 {
      AsciiCharsMembers(s[1..], c);
      assert s == [s[0]] + s[1..];
    }
  }

  /** Text that is already ASCII is left as it is, and only such text is. */
  lemma {:induction false} AsciiCharsFixed(s: string)
    ensures AsciiChars(s) == s <==> forall k :: 0 <= k < |s| ==> s[k] as int < 128
    decreases |s|
  {
    if |s| > 0 {
      AsciiCharsFixed(s[1..]);
      if s[0] as int >= 128 {
        assert |AsciiChars(s)| < |s| by {
          assert |AsciiChars(s[1..])| <= |s| - 1;
        }
      }
    }
  }

  /** Filtering twice is filtering once. */
  lemma AsciiCharsIdempotent(s: string)
    ensures AsciiChars(AsciiChars(s)) == AsciiChars(s)
  {
    AsciiCharsFixed(AsciiChars(s));
  }
}
