/**
 * Input selection in pixplot/pixplot.py: the integer size arithmetic of
 * Image.resize_to_max / resize_to_height, the image filter, the validation
 * of the image glob, output paths and cleaned file names.
 *
 * Image loading, the glob itself, percent-decoding and the options hash are
 * outside the model: they arrive as parameters.  Python's true division is
 * compared exactly (as rationals); float rounding is not modelled.
 */
module PixplotImages {
  import opened Results
  import opened IntMath
  import opened Strings
  import opened StringOrder

  /** An image's width and height in pixels (PIL's image.size). */
  datatype Size = Size(w: nat, h: nat)

  /** How a resize can fail: a division by a zero side, or PIL refusing a zero-sized target. */
  datatype ResizeError = ZeroDivision | EmptyTarget

  /** int(n * short / long): the other side of a resize, with its exact bracket. */
  function ScaleSide(n: nat, short: nat, long: nat): (side: nat)
    requires long >= 1
    ensures side * long <= n * short < (side + 1) * long
    ensures side == 0 <==> n * short < long
  {
    var m := n * short;
    var q, r := m / long, m % long;
    QuotientBracket(q, r, m, long);
    q
  }

  /** A quotient and remainder of m bracket m between multiples of long; the quotient is 0 exactly below long. */
  lemma QuotientBracket(q: nat, r: nat, m: nat, long: nat)
    requires long >= 1 && m == q * long + r && r < long
    ensures q * long <= m < (q + 1) * long
    ensures q == 0 <==> m < long
  {
    assert (q + 1) * long == q * long + long;
    if q >= 1 {
      MulMonotone(q, 1, long);
    }
  }

  /**
   * Image.resize_to_max(n): the longer side becomes n and the other side is
   * int(n * short / long); PIL raises ValueError when a side of the target is 0.
   */
  function ResizeToMax(s: Size, n: nat): (r: Result<Size, ResizeError>)
    ensures r == Err(ZeroDivision) <==> s.w == 0 && s.h == 0
    ensures s.w > s.h ==> (r.Ok? <==> n >= 1 && n * s.h >= s.w)
    ensures s.w <= s.h && s.h > 0 ==> (r.Ok? <==> n >= 1 && n * s.w >= s.h)
    ensures r.Ok? && s.w > s.h ==>
              r.value.w == n && r.value.h * s.w <= n * s.h < (r.value.h + 1) * s.w
    ensures r.Ok? && s.w <= s.h ==>
              r.value.h == n && r.value.w * s.h <= n * s.w < (r.value.w + 1) * s.h
  {
    if s.w > s.h then
      var h := ScaleSide(n, s.h, s.w);
      if n == 0 || h == 0 then Err(EmptyTarget) else Ok(Size(n, h))
    else if s.h == 0 then Err(ZeroDivision)
    else
      var w := ScaleSide(n, s.w, s.h);
      if n == 0 || w == 0 then Err(EmptyTarget) else Ok(Size(w, n))
  }

  /**
   * Image.resize_to_height(height): the width is w/h*height truncated, but
   * never below 1.  A zero height is a division by zero in the source.
   */
  function ResizeToHeight(s: Size, height: nat): (width: nat)
    requires s.h >= 1
    ensures width >= 1
    ensures s.w * height < s.h ==> width == 1
    ensures s.w * height >= s.h ==> width * s.h <= s.w * height < (width + 1) * s.h
  {
    DivBounds(s.w * height, s.h);
    if s.w * height < s.h then 1 else s.w * height / s.h
  }

  /** A resized width never exceeds the atlas when the aspect ratio is at most atlas/cell. */
  lemma ResizeToHeightFits(s: Size, cell: nat, atlas: nat)
    requires s.h >= 1 && atlas >= 1 && s.w * cell <= atlas * s.h
    ensures ResizeToHeight(s, cell) <= atlas
  {
    var width := ResizeToHeight(s, cell);
    if width > atlas {
      MulMonotone(width, atlas + 1, s.h);
      assert false;
    }
  }

  /** One streamed image: its path and its size, or None when it could not be loaded. */
  datatype Image = Image(path: string, size: Option<Size>)

  /** The tests filter_images applies to every image it streams, before metadata. */
  predicate Usable(img: Image, lodCellHeight: nat, atlasSize: nat, cellSize: nat)
  {
    img.size.Some? &&
    img.size.value.w > 0 && img.size.value.h > 0 &&
    ResizeToMax(img.size.value, lodCellHeight).Ok? &&
    img.size.value.w * cellSize <= atlasSize * img.size.value.h
  }

  /** clean_filename: the base name, percent-decoded by `decode`. */
  function CleanFilename(decode: string -> string, s: string): (name: string)
    ensures '/' !in s ==> name == decode(s)
  {
    BasenameSpec(s);
    decode(Basename(s))
  }

  /** The set of cleaned names of the metadata records; a record without a filename counts as ''. */
  function MetaNames(decode: string -> string, meta: seq<Option<string>>): set<string>
  {
    set k | 0 <= k < |meta| :: CleanFilename(decode, if meta[k].Some? then meta[k].value else "")
  }

  /** The cleaned metadata names, or None when no metadata was given. */
  function NamesOf(metadata: Option<seq<Option<string>>>, decode: string -> string): Option<set<string>>
  {
    if metadata.Some? then Some(MetaNames(decode, metadata.value)) else None
  }

  /** Whether an image survives filter_images as a whole, given the metadata names. */
  predicate Selected(img: Image, lodCellHeight: nat, atlasSize: nat, cellSize: nat,
                     names: Option<set<string>>, decode: string -> string)
  {
    Usable(img, lodCellHeight, atlasSize, cellSize) &&
    (names.Some? ==> CleanFilename(decode, img.path) in names.value)
  }

  /** a is b with some elements removed, the rest kept in order. */
  predicate SubseqOf<T(==)>(a: seq<T>, b: seq<T>)
    decreases |b|
  {
    if |a| == 0 then true
    else if |b| == 0 then false
    else (a[|a| - 1] == b[|b| - 1] && SubseqOf(a[..|a| - 1], b[..|b| - 1])) ||
         SubseqOf(a, b[..|b| - 1])
  }

  lemma SubseqExtend<T>(a: seq<T>, b: seq<T>, x: T, keep: bool)
    requires SubseqOf(a, b)
    ensures SubseqOf(a + (if keep then [x] else []), b + [x])
  {
    assert (b + [x])[..|b|] == b;
    assert a + [] == a;
    if keep {
      assert (a + [x])[..|a|] == a;
    }
  }

  function Paths(images: seq<Image>): (ps: seq<string>)
    ensures |ps| == |images| && forall i :: 0 <= i < |images| ==> ps[i] == images[i].path
  {
    seq(|images|, i requires 0 <= i < |images| => images[i].path)
  }

  /** The paths of the usable images, in input order (the first pass). */
  function UsablePaths(images: seq<Image>, lodCellHeight: nat, atlasSize: nat, cellSize: nat)
    : seq<string>
  {
    if |images| == 0 then []
    else
      var last := images[|images| - 1];
      UsablePaths(images[..|images| - 1], lodCellHeight, atlasSize, cellSize) +
      (if Usable(last, lodCellHeight, atlasSize, cellSize) then [last.path] else [])
  }

  /** The paths of the selected images, in input order: what filter_images returns. */
  function SelectedPaths(images: seq<Image>, lodCellHeight: nat, atlasSize: nat, cellSize: nat,
                         names: Option<set<string>>, decode: string -> string)
    : seq<string>
  {
    if |images| == 0 then []
    else
      var last := images[|images| - 1];
      SelectedPaths(images[..|images| - 1], lodCellHeight, atlasSize, cellSize, names, decode) +
      (if Selected(last, lodCellHeight, atlasSize, cellSize, names, decode) then [last.path] else [])
  }

  /**
   * The result is an order-preserving subsequence of the input paths, and a
   * path is in it exactly when some image with that path passes every test.
   */
  lemma {:induction false} SelectedPathsSpec(images: seq<Image>, lod: nat, atlas: nat, cell: nat,
                                              names: Option<set<string>>, decode: string -> string)
    ensures SubseqOf(SelectedPaths(images, lod, atlas, cell, names, decode), Paths(images))
    ensures forall p :: p in SelectedPaths(images, lod, atlas, cell, names, decode) <==>
              exists i :: 0 <= i < |images| && images[i].path == p &&
                          Selected(images[i], lod, atlas, cell, names, decode)
  {
    if |images| > 0 {
      var init := images[..|images| - 1];
      var last := images[|images| - 1];
      var keep := Selected(last, lod, atlas, cell, names, decode);
      SelectedPathsSpec(init, lod, atlas, cell, names, decode);
      assert Paths(images) == Paths(init) + [last.path];
      SubseqExtend(SelectedPaths(init, lod, atlas, cell, names, decode), Paths(init), last.path, keep);
      var r := SelectedPaths(images, lod, atlas, cell, names, decode);
      forall p | p in r
        ensures exists i :: 0 <= i < |images| && images[i].path == p &&
                            Selected(images[i], lod, atlas, cell, names, decode)
      {
        if p in SelectedPaths(init, lod, atlas, cell, names, decode) {
          var i :| 0 <= i < |init| && init[i].path == p &&
                   Selected(init[i], lod, atlas, cell, names, decode);
          assert images[i] == init[i];
        } else {
          assert last.path == p;
        }
      }
      forall p | exists i :: 0 <= i < |images| && images[i].path == p &&
                             Selected(images[i], lod, atlas, cell, names, decode)
        ensures p in r
      {
        var i :| 0 <= i < |images| && images[i].path == p &&
                 Selected(images[i], lod, atlas, cell, names, decode);
        if i < |images| - 1 {
          assert init[i] == images[i];
        }
      }
    }
  }

  /** The second pass: keep the paths whose cleaned name is among names, in order. */
  function MetaPass(paths: seq<string>, names: set<string>, decode: string -> string): seq<string>
  {
    if |paths| == 0 then []
    else MetaPass(paths[..|paths| - 1], names, decode) +
         (if CleanFilename(decode, paths[|paths| - 1]) in names then [paths[|paths| - 1]] else [])
  }

  /** The two passes of filter_images select the same paths as one pass with every test. */
  lemma {:induction false} TwoPassFilter(images: seq<Image>, lod: nat, atlas: nat, cell: nat,
                                          names: set<string>, decode: string -> string)
    ensures MetaPass(UsablePaths(images, lod, atlas, cell), names, decode)
         == SelectedPaths(images, lod, atlas, cell, Some(names), decode)
  {
    if |images| > 0 {
      var init := images[..|images| - 1];
      var last := images[|images| - 1];
      TwoPassFilter(init, lod, atlas, cell, names, decode);
      var kept := UsablePaths(init, lod, atlas, cell);
      var sel := SelectedPaths(init, lod, atlas, cell, Some(names), decode);
      assert MetaPass(kept, names, decode) == sel;
      if Usable(last, lod, atlas, cell) {
        var k2 := kept + [last.path];
        assert UsablePaths(images, lod, atlas, cell) == k2;
        assert k2[..|kept|] == kept;
        assert MetaPass(k2, names, decode) == MetaPass(kept, names, decode) +
          (if CleanFilename(decode, last.path) in names then [last.path] else []);
      } else {
        assert UsablePaths(images, lod, atlas, cell) == kept + [];
        assert kept + [] == kept;
        assert !Selected(last, lod, atlas, cell, Some(names), decode);
        assert SelectedPaths(images, lod, atlas, cell, Some(names), decode) == sel + [];
        assert sel + [] == sel;
      }
    }
  }

  datatype FilterError = MissingFilename

  /** The streaming pass of filter_images: the paths of the usable images, in order. */
  method UsablePass(images: seq<Image>, lodCellHeight: nat, atlasSize: nat, cellSize: nat)
    returns (kept: seq<string>)
    requires cellSize >= 1
    ensures kept == UsablePaths(images, lodCellHeight, atlasSize, cellSize)
  {
    kept := [];
    var i := 0;
    while i < |images|
      invariant 0 <= i <= |images|
      invariant kept == UsablePaths(images[..i], lodCellHeight, atlasSize, cellSize)
    {
      var img := images[i];
      ghost var before := kept;
      if img.size.Some? {
        var s := img.size.value;
        if s.h == 0 || s.w == 0 {
        } else if ResizeToMax(s, lodCellHeight).Err? {
        } else if s.w * cellSize > atlasSize * s.h {
        } else {
          kept := kept + [img.path];
        }
      }
      assert kept == before + (if Usable(img, lodCellHeight, atlasSize, cellSize) then [img.path] else []);
      assert images[..i + 1][..i] == images[..i];
      i := i + 1;
    }
    assert images[..i] == images;
  }

  /** The metadata pass of filter_images: the paths whose cleaned name is among names. */
  method MetadataPass(kept: seq<string>, names: set<string>, decode: string -> string)
    returns (out: seq<string>)
    ensures out == MetaPass(kept, names, decode)
  {
    out := [];
    var j := 0;
    while j < |kept|
      invariant 0 <= j <= |kept|
      invariant out == MetaPass(kept[..j], names, decode)
    {
      assert kept[..j + 1][..j] == kept[..j];
      if CleanFilename(decode, kept[j]) in names {
        out := out + [kept[j]];
      }
      j := j + 1;
    }
    assert kept[..j] == kept;
  }

  lemma UsableIsSelectedWithoutMetadata(images: seq<Image>, lod: nat, atlas: nat, cell: nat,
                                        decode: string -> string)
    ensures UsablePaths(images, lod, atlas, cell) == SelectedPaths(images, lod, atlas, cell, None, decode)
  {
  }

  /**
   * filter_images: streams the images, drops the unloadable, zero-sized,
   * unshrinkable and oblong ones, and, when metadata is given, keeps only
   * the images whose cleaned name appears among the metadata's cleaned
   * names.  A metadata record without a filename is a KeyError.
   */
  method FilterImages(images: seq<Image>, lodCellHeight: nat, atlasSize: nat, cellSize: nat,
                      metadata: Option<seq<Option<string>>>, decode: string -> string)
    returns (r: Result<seq<string>, FilterError>)
    requires cellSize >= 1
    ensures r.Err? <==> metadata.Some? && exists k :: 0 <= k < |metadata.value| && metadata.value[k].None?
    ensures r.Ok? ==> r.value == SelectedPaths(images, lodCellHeight, atlasSize, cellSize,
                                               NamesOf(metadata, decode), decode)
  {
    var kept := UsablePass(images, lodCellHeight, atlasSize, cellSize);
    if metadata.None? {
      UsableIsSelectedWithoutMetadata(images, lodCellHeight, atlasSize, cellSize, decode);
      return Ok(kept);
    }
    var meta := metadata.value;
    var k := 0;
    while k < |meta|
      invariant 0 <= k <= |meta|
      invariant forall j :: 0 <= j < k ==> meta[j].Some?
    {
      if meta[k].None? {
        return Err(MissingFilename);
      }
      k := k + 1;
    }
    var names := MetaNames(decode, meta);
    var out := MetadataPass(kept, names, decode);
    TwoPassFilter(images, lodCellHeight, atlasSize, cellSize, names, decode);
    return Ok(out);
  }

  /** Every image filter_images keeps has a lod-size thumbnail and a cell width that fits the atlas. */
  lemma SelectedFits(img: Image, lodCellHeight: nat, atlasSize: nat, cellSize: nat,
                     names: Option<set<string>>, decode: string -> string)
    requires atlasSize >= 1
    requires Selected(img, lodCellHeight, atlasSize, cellSize, names, decode)
    ensures ResizeToMax(img.size.value, lodCellHeight).Ok?
    ensures ResizeToHeight(img.size.value, cellSize) <= atlasSize
  {
    ResizeToHeightFits(img.size.value, cellSize, atlasSize);
  }

  datatype PathError = NoImagesArgument | NoImagesFound | TooFewImages

  /**
   * get_image_paths for a glob argument: the glob's matches, sorted, when
   * there are more of them than clusters.  `matches` stands for the glob's
   * result; the IIIF manifest branch and the optional shuffle are outside.
   */
  function GetImagePaths(images: string, matches: seq<string>, nClusters: nat)
    : (r: Result<seq<string>, PathError>)
    ensures r == Err(NoImagesArgument) <==> images == ""
    ensures r == Err(NoImagesFound) <==> images != "" && |matches| == 0
    ensures r == Err(TooFewImages) <==> images != "" && 0 < |matches| <= nClusters
    ensures r.Ok? ==> Sorted(r.value) && multiset(r.value) == multiset(matches) &&
                      |r.value| > nClusters
  {
    if images == "" then Err(NoImagesArgument)
    else
      var paths := Sort(matches);
      assert |paths| == |multiset(paths)| == |matches|;
      if |paths| == 0 then Err(NoImagesFound)
      else if |paths| <= nClusters then Err(TooFewImages)
      else Ok(paths)
  }

  /** Python's os.path.join for two components. */
  function PathJoin(a: string, b: string): string
  {
    if |b| > 0 && b[0] == '/' then b
    else if |a| == 0 || a[|a| - 1] == '/' then a + b
    else a + "/" + b
  }

  /** Joining a slash-free name onto a directory leaves that name as the base name. */
  lemma BasenameOfJoin(a: string, b: string)
    requires '/' !in b
    ensures Basename(PathJoin(a, b)) == b
  {
    var p := if |a| == 0 || a[|a| - 1] == '/' then a else a + "/";
    assert PathJoin(a, b) == p + b;
    var s := p + b;
    LastIndexOfSpec(s, '/');
    if |p| == 0 {
      assert s == b;
    } else {
      assert s[|p| - 1] == '/';
      var r := LastIndexOf(s, '/');
      assert r.value <= |p| - 1;
      assert s[|p|..] == b;
    }
  }

  /** Appending to a joined path appends to its last component. */
  lemma PathJoinAppend(a: string, b: string, c: string)
    requires |b| > 0
    ensures PathJoin(a, b) + c == PathJoin(a, b + c)
  {
    assert (b + c)[0] == b[0];
    if |a| == 0 || a[|a| - 1] == '/' {
      assert a + b + c == a + (b + c);
    } else {
      assert a + "/" + b + c == a + "/" + (b + c);
    }
  }

  /**
   * get_path(sub_dir, filename): out_dir[/sub_dir]/filename[-hash].json[.gz].
   * `hash` is the options hash, supplied by the caller.
   */
  function GetPath(outDir: string, subDir: string, filename: string, addHash: bool,
                   hash: string, gzip: bool): (path: string)
    ensures '/' !in filename && '/' !in hash ==>
              Basename(path) == (if addHash then filename + "-" + hash else filename) +
                                (if gzip then ".json.gz" else ".json")
    ensures filename == [] || filename[0] != '/' ==>
              path == DirPrefix(if subDir != "" then PathJoin(outDir, subDir) else outDir) +
                      (if addHash then filename + "-" + hash else filename) +
                      (if gzip then ".json.gz" else ".json")
  {
    var dir := if subDir != "" then PathJoin(outDir, subDir) else outDir;
    var name := if addHash then filename + "-" + hash else filename;
    var path := PathJoin(dir, name + ".json");
    var full := if gzip then path + ".gz" else path;
    GetPathBasename(dir, name, gzip);
    assert filename == [] || filename[0] != '/' ==> name == [] || name[0] != '/';
    GetPathPrefix(dir, name, gzip);
    full
  }

  /** What os.path.join puts before a relative name: the directory, with a '/' unless it is empty or ends in one. */
  function DirPrefix(dir: string): string
  {
    if |dir| == 0 || dir[|dir| - 1] == '/' then dir else dir + "/"
  }

  /** For a name not starting with '/', the JSON path is the directory, a separator, then the file name. */
  lemma GetPathPrefix(dir: string, name: string, gzip: bool)
    ensures name == [] || name[0] != '/' ==>
              (if gzip then PathJoin(dir, name + ".json") + ".gz" else PathJoin(dir, name + ".json"))
              == DirPrefix(dir) + name + (if gzip then ".json.gz" else ".json")
  {
    if name == [] || name[0] != '/' {
      var file := name + ".json";
      assert file[0] != '/';
      assert PathJoin(dir, file) == DirPrefix(dir) + file;
      if gzip {
        assert DirPrefix(dir) + file + ".gz" == DirPrefix(dir) + name + ".json.gz";
      }
    }
  }

  lemma GetPathBasename(dir: string, name: string, gzip: bool)
    ensures '/' !in name ==>
              Basename(if gzip then PathJoin(dir, name + ".json") + ".gz" else PathJoin(dir, name + ".json"))
              == name + (if gzip then ".json.gz" else ".json")
  {
    var tail := name + (if gzip then ".json.gz" else ".json");
    if gzip {
      PathJoinAppend(dir, name + ".json", ".gz");
      assert name + ".json" + ".gz" == tail;
    }
    if '/' !in name {
      assert '/' !in tail;
      BasenameOfJoin(dir, tail);
    }
  }

  /** clean_filename ignores the directory part of its argument. */
  lemma CleanFilenameOfJoin(decode: string -> string, dir: string, name: string)
    requires '/' !in name
    ensures CleanFilename(decode, PathJoin(dir, name)) == decode(name)
  {
    BasenameOfJoin(dir, name);
  }
}
