/**
 * imageplot.py, the single-class predecessor of the pipeline: the position
 * records it writes for the 2-d projection (which rows it skips, how it
 * shortens the coordinates, which name each record carries) and the atlas
 * files it montages for sizes[:-1].
 */
module Imageplot {
  import opened Results
  import opened IntMath
  import opened Strings
  import opened PixplotImages
  import opened Chunking
  import opened FileStems
  import opened ProcessImages

  /** One row of the 2-d projection. */
  datatype Point = Point(x: real, y: real)

  /** One entry of tsne_image_positions.json. */
  datatype Position = Position(x: real, y: real, img: string)

  // ---------------------------------------------------------------- limit_float

  /** limit_float(f): int(f * 10000) / 10000, int() cutting toward zero, "/" true division. */
  function LimitFloat(f: real): (r: real)
    ensures f >= 0.0 ==> 0.0 <= r <= f
    ensures f < 0.0 ==> f <= r <= 0.0
  {
    TruncToInt(f * 10000.0) as real / 10000.0
  }

  /**
   * The coordinate is cut toward zero to four decimals: it keeps its sign,
   * never grows in size, loses less than 1/10000, and is a whole number of
   * ten-thousandths.
   */
  lemma LimitFloatSpec(f: real)
    ensures var r := LimitFloat(f);
            (f >= 0.0 ==> 0.0 <= r <= f && f - r < 0.0001) &&
            (f < 0.0 ==> f <= r <= 0.0 && r - f < 0.0001) &&
            r * 10000.0 == TruncToInt(f * 10000.0) as real
  {
    var t := TruncToInt(f * 10000.0);
    assert LimitFloat(f) * 10000.0 == t as real;
  }

  /** Cutting an already cut coordinate changes nothing. */
  lemma LimitFloatIdempotent(f: real)
    ensures LimitFloat(LimitFloat(f)) == LimitFloat(f)
  {
    var t := TruncToInt(f * 10000.0);
    LimitFloatSpec(f);
    assert LimitFloat(f) * 10000.0 == t as real;
    assert TruncToInt(t as real) == t;
  }

  // ---------------------------------------------------------------- write_image_positions

  /** The record of row c: both coordinates cut, and the first '.'-piece of the vector file's stem. */
  function PositionOf(p: Point, vectorFile: string): Position
  {
    Position(LimitFloat(p.x), LimitFloat(p.y), FirstPiece(GetFilename(vectorFile)))
  }

  /** The test as written: the vector file's stem is looked up among the errored names. */
  function SkipAsWritten(errored: set<string>): string -> bool
  {
    (vf: string) => GetFilename(vf) in errored
  }

  /**
   * The test as intended: a vector file is named after the image's base
   * name plus ".npy", so its stem still carries the image's extension;
   * the image's own stem is the stem of that stem.
   */
  function SkipErrored(errored: set<string>): string -> bool
  {
    (vf: string) => ImageErrored(errored, vf)
  }

  predicate ImageErrored(errored: set<string>, vectorFile: string)
  {
    GetFilename(GetFilename(vectorFile)) in errored
  }

  /** The values row(c) of the indices c below upTo that keep accepts, in index order. */
  function Gather<T>(keep: nat -> bool, row: nat -> T, upTo: nat): seq<T>
  {
    if upTo == 0 then []
    else Gather(keep, row, upTo - 1) + (if keep(upTo - 1) then [row(upTo - 1)] else [])
  }

  /** The record of each row of the projection; rows past its end do not occur. */
  function RowRecord(vectorFiles: seq<string>, fit: seq<Point>): nat -> Position
  {
    (c: nat) => if c < |fit| && c < |vectorFiles| then PositionOf(fit[c], vectorFiles[c]) else Position(0.0, 0.0, "")
  }

  /** The records write_image_positions appends for the first upTo rows, with skip as the errored test. */
  function Positions(skip: string -> bool, vectorFiles: seq<string>, fit: seq<Point>, upTo: nat): seq<Position>
  {
    Gather(KeepRow(skip, vectorFiles), RowRecord(vectorFiles, fit), upTo)
  }

  /** One more row: its record is appended unless skip rejects its vector file. */
  lemma PositionsStep(skip: string -> bool, vectorFiles: seq<string>, fit: seq<Point>, c: nat)
    requires c < |fit| <= |vectorFiles|
    ensures Positions(skip, vectorFiles, fit, c + 1) ==
            Positions(skip, vectorFiles, fit, c) + (if skip(vectorFiles[c]) then [] else [PositionOf(fit[c], vectorFiles[c])])
  {
  }

  /** The loop of write_image_positions for any errored test: the records of the rows it keeps, in row order. */
  method GatherPositions(skip: string -> bool, vectorFiles: seq<string>, fit: seq<Point>) returns (added: seq<Position>)
    requires |fit| <= |vectorFiles|
    ensures added == Positions(skip, vectorFiles, fit, |fit|)
  {
    added := [];
    for c := 0 to |fit|
      invariant added == Positions(skip, vectorFiles, fit, c)
    {
      PositionsStep(skip, vectorFiles, fit, c);
      if !skip(vectorFiles[c]) {
        added := added + [PositionOf(fit[c], vectorFiles[c])];
      }
    }
  }

  /** Which rows a skip test keeps. */
  function KeepRow(skip: string -> bool, vectorFiles: seq<string>): nat -> bool
  {
    (c: nat) => c < |vectorFiles| && !skip(vectorFiles[c])
  }

  /** The indices below upTo that keep accepts, in increasing order. */
  function Kept(keep: nat -> bool, upTo: nat): seq<nat>
  {
    if upTo == 0 then []
    else Kept(keep, upTo - 1) + (if keep(upTo - 1) then [upTo - 1] else [])
  }

  /** An index is kept exactly when it is below upTo and accepted. */
  lemma {:induction false} KeptMembers(keep: nat -> bool, upTo: nat, c: nat)
    ensures c in Kept(keep, upTo) <==> c < upTo && keep(c)
  {
    if upTo > 0 {
      KeptMembers(keep, upTo - 1, c);
    }
  }

  /** The kept indices are strictly increasing: the original order survives. */
  lemma {:induction false} KeptIncreasing(keep: nat -> bool, upTo: nat)
    ensures forall i, j :: 0 <= i < j < |Kept(keep, upTo)| ==> Kept(keep, upTo)[i] < Kept(keep, upTo)[j]
  {
    if upTo > 0 {
      KeptIncreasing(keep, upTo - 1);
      var ks := Kept(keep, upTo - 1);
      forall i | 0 <= i < |ks|
        ensures ks[i] < upTo - 1
      {
        KeptMembers(keep, upTo - 1, ks[i]);
      }
      var all := Kept(keep, upTo);
      assert all == ks + (if keep(upTo - 1) then [upTo - 1] else []);
      forall i, j | 0 <= i < j < |all|
        ensures all[i] < all[j]
      {
        if j < |ks| {
          assert all[i] == ks[i] && all[j] == ks[j];
          assert ks[i] < ks[j];
        } else {
          assert keep(upTo - 1) && j == |ks| && all[j] == upTo - 1;
          assert all[i] == ks[i] < upTo - 1;
        }
      }
    }
  }

  /** When keep accepts every index, the kept indices are 0 .. upTo - 1. */
  lemma {:induction false} KeptAll(keep: nat -> bool, upTo: nat)
    requires forall c: nat :: c < upTo ==> keep(c)
    ensures Kept(keep, upTo) == seq(upTo, i requires 0 <= i => i as nat)
  {
    if upTo > 0 {
      KeptAll(keep, upTo - 1);
    }
  }

  /** Gather picks row(c) for each kept index c, in order, and nothing else. */
  lemma {:induction false} GatherKept<T>(keep: nat -> bool, row: nat -> T, upTo: nat)
    ensures var ks := Kept(keep, upTo);
            var gs := Gather(keep, row, upTo);
            |gs| == |ks| && forall k :: 0 <= k < |ks| ==> ks[k] < upTo && gs[k] == row(ks[k])
  {
    if upTo > 0 {
      GatherKept(keep, row, upTo - 1);
      var ks := Kept(keep, upTo - 1);
      forall k | 0 <= k < |ks|
        ensures ks[k] < upTo - 1
      {
        KeptMembers(keep, upTo - 1, ks[k]);
      }
    }
  }

  /**
   * The records are exactly those of the kept rows, one per kept row, in
   * row order: record k is row Kept[k], cut and named.
   */
  lemma PositionsAreKeptRows(skip: string -> bool, vectorFiles: seq<string>, fit: seq<Point>, upTo: nat)
    requires upTo <= |fit| <= |vectorFiles|
    ensures var ks := Kept(KeepRow(skip, vectorFiles), upTo);
            var ps := Positions(skip, vectorFiles, fit, upTo);
            |ps| == |ks| &&
            forall k :: 0 <= k < |ks| ==> ks[k] < upTo && ps[k] == PositionOf(fit[ks[k]], vectorFiles[ks[k]])
  {
    GatherKept(KeepRow(skip, vectorFiles), RowRecord(vectorFiles, fit), upTo);
  }

  /** Every record's name is a single '.'-free piece. */
  lemma PositionNameHasNoDot(p: Point, vectorFile: string)
    ensures '.' !in PositionOf(p, vectorFile).img
  {
  }

  /** Where create_image_vectors writes the vector of an image. */
  function VectorFile(outputDir: string, image: string): string
  {
    PathJoin(PathJoin(outputDir, "image_vectors"), Basename(image) + ".npy")
  }

  /** A name without '/' is its own base name. */
  lemma BasenameOfPlain(s: string)
    requires '/' !in s
    ensures Basename(s) == s
  {
    BasenameOfJoin("", s);
    assert PathJoin("", s) == s;
  }

  /**
   * The stem of an image's vector file is the image's base name, extension
   * and all; its stem in turn is the image's stem.
   */
  lemma VectorFileStems(outputDir: string, image: string)
    requires HasNonDot(Basename(image))
    ensures GetFilename(VectorFile(outputDir, image)) == Basename(image)
    ensures GetFilename(GetFilename(VectorFile(outputDir, image))) == GetFilename(image)
  {
    var b := Basename(image);
    BasenameSpec(image);
    assert ".npy"[1..] == "npy";
    GetFilenameOfExtension(PathJoin(outputDir, "image_vectors"), b, ".npy");
    BasenameOfPlain(b);
  }

  /**
   * With the intended test, a row whose vector file has an image's base
   * name as its stem (as every vector file written by VectorFile has, see
   * VectorFileStems) is kept exactly when the image's stem is not among the
   * errored names.
   */
  lemma SkipErroredExactly(errored: set<string>, image: string, vectorFiles: seq<string>, c: nat)
    requires c < |vectorFiles| && GetFilename(vectorFiles[c]) == Basename(image)
    ensures KeepRow(SkipErrored(errored), vectorFiles)(c) <==> GetFilename(image) !in errored
  {
    BasenameSpec(image);
    BasenameOfPlain(Basename(image));
  }

  /**
   * As written the test looks up "cat.jpg" (the stem of cat.jpg.npy)
   * among the errored names, while a failed thumbnail of cat.jpg records
   * "cat": the errored image keeps its position record.
   */
  lemma AsWrittenKeepsErroredImage(outputDir: string, fit: seq<Point>)
    requires |fit| == 1
    ensures var errored := {GetFilename("cat.jpg")};
            var vectorFiles := [VectorFile(outputDir, "cat.jpg")];
            errored == {"cat"} &&
            |Positions(SkipAsWritten(errored), vectorFiles, fit, 1)| == 1 &&
            Positions(SkipErrored(errored), vectorFiles, fit, 1) == []
  {
    assert "cat.jpg" !in {"cat"} by {
      assert |"cat.jpg"| != |"cat"|;
    }
    var vf := VectorFile(outputDir, "cat.jpg");
    CatStems(outputDir);
    assert !SkipAsWritten({"cat"})(vf);
    assert SkipErrored({"cat"})(vf);
    PositionsOfOne(SkipAsWritten({"cat"}), vf, fit);
    PositionsOfOne(SkipErrored({"cat"}), vf, fit);
  }

  /** cat.jpg has the stem "cat", and its vector file the stem "cat.jpg". */
  lemma CatStems(outputDir: string)
    ensures GetFilename("cat.jpg") == "cat"
    ensures GetFilename(VectorFile(outputDir, "cat.jpg")) == "cat.jpg"
  {
    BasenameOfPlain("cat.jpg");
    assert "cat.jpg"[0] != '.';
    VectorFileStems(outputDir, "cat.jpg");
    CatRoot();
  }

  /** The root of "cat.jpg" is "cat". */
  lemma CatRoot()
    ensures SplitExtRoot("cat.jpg") == "cat"
  {
    var base := "cat.jpg";
    assert base[..3] == "cat";
    assert base[4..] == "jpg";
    assert base[..3][0] != '.';
    RootAt(base, 3);
  }

  /** A single row is kept, with its record, exactly when skip lets its vector file through. */
  lemma PositionsOfOne(skip: string -> bool, vectorFile: string, fit: seq<Point>)
    requires |fit| == 1
    ensures Positions(skip, [vectorFile], fit, 1) == if skip(vectorFile) then [] else [PositionOf(fit[0], vectorFile)]
  {
    PositionsStep(skip, [vectorFile], fit, 0);
  }

  // ---------------------------------------------------------------- write_atlas_files

  /** The thumbnail sizes and the ones that get atlases: sizes[:-1]. */
  const Sizes: seq<nat> := [16, 32, 64, 128]
  const AtlasSizes: seq<nat> := Sizes[..|Sizes| - 1]

  /** The montage command of this generation: no quotes, no magick prefix, the tile count as a float. */
  function PlotMontageCommand(outputDir: string, thumbSize: nat, cols: nat, idx: nat): string
  {
    "montage @" + PlotMontageOptions(outputDir, thumbSize, cols) + AtlasPath(outputDir, thumbSize, idx)
  }

  /** Everything between "montage @" and the atlas path: the list file and the options. */
  function PlotMontageOptions(outputDir: string, thumbSize: nat, cols: nat): string
  {
    var side := NatToString(thumbSize);
    var tile := WholeFloatText(cols);
    PathJoin(outputDir, "images_to_montage.txt") + " " +
    "-background none " +
    "-size " + side + "x" + side + " " +
    "-geometry " + side + "x" + side + "+0+0 " +
    "-tile " + tile + "x" + tile + " " +
    "-quality 85 " +
    "-sampling-factor 4:2:0 "
  }

  /** The command writes straight to the atlas path, which ends it. */
  lemma PlotMontageCommandTarget(outputDir: string, thumbSize: nat, cols: nat, idx: nat)
    ensures var cmd := PlotMontageCommand(outputDir, thumbSize, cols, idx);
            var out := AtlasPath(outputDir, thumbSize, idx);
            |out| <= |cmd| && cmd[|cmd| - |out|..] == out && cmd[..9] == "montage @"
  {
    Framed("montage @", PlotMontageOptions(outputDir, thumbSize, cols), AtlasPath(outputDir, thumbSize, idx));
  }

  /** A text framed as head + middle + tail starts with head and ends with tail. */
  lemma Framed(head: string, middle: string, tail: string)
    ensures var t := head + middle + tail;
            |tail| <= |t| && t[|t| - |tail|..] == tail && t[..|head|] == head
  {
    var t := head + middle + tail;
    assert t[..|head|] == head;
    assert t[|t| - |tail|..] == tail;
  }

  /** The montage run for group idx: the list file holds the paths one per line, unquoted. */
  function PlotAtlasJob(outputDir: string, thumbSize: nat, cols: nat, group: seq<string>, idx: nat): AtlasJob
  {
    AtlasJob(Join(group, '\n'), PlotMontageCommand(outputDir, thumbSize, cols, idx),
             AtlasPath(outputDir, thumbSize, idx))
  }

  /** An atlas is made unless its file exists and rewriting atlases is off. */
  function AtlasWanted(outputDir: string, thumbSize: nat, existing: set<string>, rewrite: bool): nat -> bool
  {
    (idx: nat) => !(AtlasPath(outputDir, thumbSize, idx) in existing && !rewrite)
  }

  /** The montage run of each group; groups past the last do not occur. */
  function GroupJob(outputDir: string, thumbSize: nat, cols: nat, groups: seq<seq<string>>): nat -> AtlasJob
  {
    (idx: nat) => PlotAtlasJob(outputDir, thumbSize, cols, if idx < |groups| then groups[idx] else [], idx)
  }

  /** The montage runs for the first upTo groups, in group order. */
  function PlotAtlasJobs(outputDir: string, thumbSize: nat, cols: nat, groups: seq<seq<string>>,
                         existing: set<string>, rewrite: bool, upTo: nat): seq<AtlasJob>
  {
    Gather(AtlasWanted(outputDir, thumbSize, existing, rewrite), GroupJob(outputDir, thumbSize, cols, groups), upTo)
  }

  /**
   * The runs are those of the wanted groups, in group order: run k is for
   * group Kept[k].
   */
  lemma PlotAtlasJobsAreWanted(outputDir: string, thumbSize: nat, cols: nat, groups: seq<seq<string>>,
                               existing: set<string>, rewrite: bool, upTo: nat)
    requires upTo <= |groups|
    ensures var ks := Kept(AtlasWanted(outputDir, thumbSize, existing, rewrite), upTo);
            var jobs := PlotAtlasJobs(outputDir, thumbSize, cols, groups, existing, rewrite, upTo);
            |jobs| == |ks| &&
            forall k :: 0 <= k < |ks| ==>
              ks[k] < upTo && jobs[k] == PlotAtlasJob(outputDir, thumbSize, cols, groups[ks[k]], ks[k])
  {
    GatherKept(AtlasWanted(outputDir, thumbSize, existing, rewrite), GroupJob(outputDir, thumbSize, cols, groups),
               upTo);
  }

  /** With rewriting on (as the constructor sets it), group idx gets run idx. */
  lemma PlotAtlasJobsRewriting(outputDir: string, thumbSize: nat, cols: nat, groups: seq<seq<string>>,
                               existing: set<string>, idx: nat)
    requires idx < |groups|
    ensures var jobs := PlotAtlasJobs(outputDir, thumbSize, cols, groups, existing, true, |groups|);
            |jobs| == |groups| && jobs[idx] == PlotAtlasJob(outputDir, thumbSize, cols, groups[idx], idx)
  {
    KeptAll(AtlasWanted(outputDir, thumbSize, existing, true), |groups|);
    PlotAtlasJobsAreWanted(outputDir, thumbSize, cols, groups, existing, true, |groups|);
  }

  /** subdivide(l, n): slice k runs from k * int(n) up to (k + 1) * int(n), cut at the end of l. */
  lemma SubdivideSlices<T>(l: seq<T>, n: real, k: nat)
    requires TruncToInt(n) >= 1
    requires k < CeilDiv(|l|, TruncToInt(n))
    ensures var m := TruncToInt(n);
            Subdivide(l, n).Ok? && k * m < |l| &&
            Subdivide(l, n).value[k] == l[k * m .. Min((k + 1) * m, |l|)]
  {
    ChunkAt(l, TruncToInt(n), k);
  }

  /** The names get_atlas_thumbs reads back from the positions file. */
  function PositionNames(ps: seq<Position>): (names: seq<string>)
    ensures |names| == |ps|
    ensures forall i :: 0 <= i < |ps| ==> names[i] == ps[i].img
  {
    seq(|ps|, i requires 0 <= i < |ps| => ps[i].img)
  }

  // ---------------------------------------------------------------- the Imageplot object

  class Plot {
    var errored: set<string>
    var vectorFiles: seq<string>
    var imagePositions: seq<Position>
    var rewriteAtlasFiles: bool

    /** The state __init__ sets up before it runs the pipeline. */
    constructor ()
      ensures errored == {} && vectorFiles == [] && imagePositions == [] && rewriteAtlasFiles
    {
      errored := {};
      vectorFiles := [];
      imagePositions := [];
      rewriteAtlasFiles := true;
    }

    /** A failed thumbnail conversion records the image's stem. */
    method RecordFailure(image: string)
      modifies this
      ensures errored == old(errored) + {GetFilename(image)}
      ensures vectorFiles == old(vectorFiles) && imagePositions == old(imagePositions)
      ensures rewriteAtlasFiles == old(rewriteAtlasFiles)
    {
      errored := errored + {GetFilename(image)};
    }

    /** load_image_vectors: the vector files found on disk, in the order found. */
    method LoadVectorFiles(found: seq<string>)
      modifies this
      ensures vectorFiles == found
      ensures errored == old(errored) && imagePositions == old(imagePositions)
      ensures rewriteAtlasFiles == old(rewriteAtlasFiles)
    {
      vectorFiles := found;
    }

    /**
     * write_image_positions: one record per row of the projection whose
     * image did not fail, appended in row order (the intended errored test;
     * see SkipErrored).
     */
    method WriteImagePositions(fit: seq<Point>)
      modifies this
      requires |fit| <= |vectorFiles|
      ensures errored == old(errored) && vectorFiles == old(vectorFiles)
      ensures rewriteAtlasFiles == old(rewriteAtlasFiles)
      ensures imagePositions == old(imagePositions) + Positions(SkipErrored(errored), vectorFiles, fit, |fit|)
    {
      var added := GatherPositions(SkipErrored(errored), vectorFiles, fit);
      imagePositions := imagePositions + added;
    }

    /** write_atlas_files for one size, over the thumbnails in groups of int(atlas_cols ** 2). */
    method WriteAtlasFiles(outputDir: string, thumbSize: nat, thumbs: seq<string>, existing: set<string>)
      returns (jobs: seq<AtlasJob>)
      requires 1 <= thumbSize <= 2048 && 2048 % thumbSize == 0
      ensures var cols := 2048 / thumbSize;
              var groups := Chunks(thumbs, cols * cols);
              Subdivide(thumbs, GroupSize(thumbSize)) == Ok(groups) &&
              jobs == PlotAtlasJobs(outputDir, thumbSize, cols, groups, existing, rewriteAtlasFiles, |groups|)
    {
      var cols := 2048 / thumbSize;
      AtlasGroups(thumbs, thumbSize);
      var groups := Subdivide(thumbs, GroupSize(thumbSize)).value;
      jobs := [];
      var idx := 0;
      while idx < |groups|
        invariant idx <= |groups|
        invariant jobs == PlotAtlasJobs(outputDir, thumbSize, cols, groups, existing, rewriteAtlasFiles, idx)
      {
        var outPath := AtlasPath(outputDir, thumbSize, idx);
        if !(outPath in existing && !rewriteAtlasFiles) {
          jobs := jobs + [AtlasJob(Join(groups[idx], '\n'), PlotMontageCommand(outputDir, thumbSize, cols, idx),
                                   outPath)];
        }
        idx := idx + 1;
      }
    }

    /**
     * create_atlas_files: for 16px, 32px and 64px the thumbnails of every
     * position record, then the montage runs.  atlas_group_imgs is never
     * filled, so the closing assert holds without comparing anything.
     */
    method CreateAtlasFiles(outputDir: string, existing: set<string>)
      returns (jobs: seq<seq<AtlasJob>>, groupImgs: seq<nat>)
      ensures groupImgs == [] && AllEqualFirst(groupImgs)
      ensures |jobs| == |AtlasSizes| == 3
      ensures forall k :: 0 <= k < |jobs| ==>
                var thumbSize := AtlasSizes[k];
                var cols := 2048 / thumbSize;
                var groups := Chunks(AtlasThumbs(outputDir, thumbSize, PositionNames(imagePositions)), cols * cols);
                jobs[k] == PlotAtlasJobs(outputDir, thumbSize, cols, groups, existing, rewriteAtlasFiles, |groups|)
    {
      assert AtlasSizes == [16, 32, 64];
      groupImgs := [];
      jobs := [];
      var names := PositionNames(imagePositions);
      var k := 0;
      while k < |AtlasSizes|
        invariant k <= |AtlasSizes| && |jobs| == k
        invariant forall i :: 0 <= i < k ==>
                    var thumbSize := AtlasSizes[i];
                    var cols := 2048 / thumbSize;
                    var groups := Chunks(AtlasThumbs(outputDir, thumbSize, names), cols * cols);
                    jobs[i] == PlotAtlasJobs(outputDir, thumbSize, cols, groups, existing, rewriteAtlasFiles, |groups|)
      {
        var thumbs := AtlasThumbs(outputDir, AtlasSizes[k], names);
        var written := WriteAtlasFiles(outputDir, AtlasSizes[k], thumbs, existing);
        jobs := jobs + [written];
        k := k + 1;
      }
    }
  }

  /** At 16px one atlas holds 128 x 128 thumbnails; at every atlas size the count is AtlasFileCount. */
  lemma AtlasCountsPerSize(thumbs: seq<string>, k: nat)
    requires k < |AtlasSizes|
    ensures var thumbSize := AtlasSizes[k];
            var cols := 2048 / thumbSize;
            |Chunks(thumbs, cols * cols)| == AtlasFileCount(|thumbs|, thumbSize)
    ensures AtlasSizes[0] == 16 && 2048 / AtlasSizes[0] == 128
  {
    assert AtlasSizes == [16, 32, 64];
    AtlasGroups(thumbs, AtlasSizes[k]);
  }
}
