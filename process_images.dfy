/**
 * The integer and text bookkeeping of utils/process_images.py: the atlas
 * counts written to plot_data.json, the ImageMagick command prefix, the
 * per-image resize jobs and the chained `convert` command that serves them,
 * the image-count check, and the montage jobs that pack thumbnails into
 * 2048px atlases.  Running the commands, the file system and the model
 * stages are outside; whether a path exists and whether a command fails
 * arrive as parameters.
 */
module ProcessImages {
  import opened Results
  import opened IntMath
  import opened Strings
  import opened Chunking
  import opened PixplotImages
  import opened FileStems

  /** The atlas counts for the 32px and 64px atlas sizes. */
  datatype AtlasCounts = AtlasCounts(px32: nat, px64: nat)

  /**
   * get_atlas_counts: the fewest 4096-cell (64 x 64 of 32px) atlases and
   * 1024-cell (32 x 32 of 64px) atlases that hold fileCount images.
   */
  function GetAtlasCounts(fileCount: nat): (c: AtlasCounts)
    ensures c.px32 * 4096 >= fileCount && (c.px32 == 0 || (c.px32 - 1) * 4096 < fileCount)
    ensures c.px64 * 1024 >= fileCount && (c.px64 == 0 || (c.px64 - 1) * 1024 < fileCount)
  {
    AtlasCounts(CeilDiv(fileCount, 64 * 64), CeilDiv(fileCount, 32 * 32))
  }

  /** A 64px atlas holds a quarter of a 32px one: at least as many of them are needed ... */
  lemma AtlasCountsAtLeast(fileCount: nat)
    ensures GetAtlasCounts(fileCount).px32 <= GetAtlasCounts(fileCount).px64
  {
  }

  /** ... and at most four times as many. */
  lemma AtlasCountsAtMost(fileCount: nat)
    ensures GetAtlasCounts(fileCount).px64 <= 4 * GetAtlasCounts(fileCount).px32
  {
    var c := GetAtlasCounts(fileCount);
    assert c.px32 * 4096 >= fileCount;
    assert c.px64 == 0 || (c.px64 - 1) * 1024 < fileCount;
  }

  /** get_magick_command: ImageMagick 7 on Windows is called through `magick`. */
  function GetMagickCommand(cmd: string, osName: string): (r: string)
    ensures |r| >= |cmd| && r[|r| - |cmd|..] == cmd
    ensures |r| > |cmd| <==> osName == "nt"
    ensures osName == "nt" ==> |r| >= 7 && r[..7] == "magick "
  {
    if osName == "nt" then "magick " + cmd else cmd
  }

  /**
   * validate_inputs' count check: fewer images than clusters stops the run.
   * (The identify pass that follows runs a command per file and is outside.)
   */
  datatype ValidateError = TooFewImagesForClusters

  function ValidateCount(imageCount: nat, nClusters: nat): (r: Result<(), ValidateError>)
    ensures r.Err? <==> imageCount < nClusters
  {
    if imageCount < nClusters then Err(TooFewImagesForClusters) else Ok(())
  }

  /**
   * pixplot/pixplot.py rejects a glob with as many matches as clusters;
   * this script accepts it.  The two checks differ at exactly that count.
   */
  lemma CountChecksDiffer(images: string, matches: seq<string>, nClusters: nat)
    requires images != "" && |matches| > 0
    ensures (GetImagePaths(images, matches, nClusters) == Err(TooFewImages)) !=
            ValidateCount(|matches|, nClusters).Err?
            <==> |matches| == nClusters
  {
  }

  // ---------------------------------------------------------------- thumbs

  /** The thumbnail sizes, and the order create_image_thumbs visits them in (largest first). */
  const ThumbSizes: seq<nat> := [16, 32, 64, 128]
  const ThumbSizesDescending: seq<nat> := [128, 64, 32, 16]

  /** Strictly decreasing: the order resize_thumb chains its sizes in. */
  predicate Descending(p: seq<nat>)
  {
    forall a, b :: 0 <= a < b < |p| ==> p[a] > p[b]
  }

  /** sorted(sizes, key=int, reverse=True): the same sizes, largest first. */
  lemma ThumbSizesDescendingIsSorted()
    ensures multiset(ThumbSizesDescending) == multiset(ThumbSizes)
    ensures Descending(ThumbSizesDescending)
  {
    var d := ThumbSizesDescending;
    assert d[0] > d[1] > d[2] > d[3];
    assert multiset(d) == multiset{16, 32, 64, 128};
  }

  /** A size is visited exactly when it is one of the thumbnail sizes. */
  lemma ThumbSizesVisited(s: nat)
    ensures s in ThumbSizesDescending <==> s in ThumbSizes
  {
    var d := ThumbSizesDescending;
    assert d[0] == 128 && d[1] == 64 && d[2] == 32 && d[3] == 16;
  }

  /** join(output_dir, 'thumbs', '<size>px') */
  function ThumbDir(outputDir: string, size: nat): string
  {
    PathJoin(PathJoin(outputDir, "thumbs"), NatToString(size) + "px")
  }

  /** The thumbnail of img at one size: <thumb dir>/<get_filename(img)>.jpg */
  function ThumbPath(outputDir: string, size: nat, img: string): string
  {
    PathJoin(ThumbDir(outputDir, size), GetFilename(img) + ".jpg")
  }

  /** A thumbnail is made unless it exists and rewriting is off. */
  predicate Wanted(outputDir: string, size: nat, img: string, onDisk: string -> bool, rewrite: bool)
  {
    !(onDisk(ThumbPath(outputDir, size, img)) && !rewrite)
  }

  /** Wanted, as a test on the size alone. */
  function WantedSize(outputDir: string, img: string, onDisk: string -> bool, rewrite: bool): nat -> bool
  {
    (s: nat) => Wanted(outputDir, s, img, onDisk, rewrite)
  }

  /** The sizes of order that keep accepts, in the order visited. */
  function Select(keep: nat -> bool, order: seq<nat>): seq<nat>
  {
    if |order| == 0 then []
    else
      var s := order[|order| - 1];
      Select(keep, order[..|order| - 1]) + (if keep(s) then [s] else [])
  }

  /** A size is selected exactly when it is visited and accepted. */
  lemma {:induction false} SelectMembers(keep: nat -> bool, order: seq<nat>, s: nat)
    ensures s in Select(keep, order) <==> s in order && keep(s)
  {
    if |order| > 0 {
      var prefix := order[..|order| - 1];
      SelectMembers(keep, prefix, s);
      assert order == prefix + [order[|order| - 1]];
    }
  }

  /** Selecting from a decreasing order keeps it decreasing. */
  lemma {:induction false} SelectDescending(keep: nat -> bool, order: seq<nat>)
    requires Descending(order)
    ensures Descending(Select(keep, order))
  {
    if |order| > 0 {
      var n := |order| - 1;
      var prefix := order[..n];
      var p := Select(keep, order);
      var q := Select(keep, prefix);
      assert Descending(prefix) by {
        forall a, b | 0 <= a < b < |prefix|
          ensures prefix[a] > prefix[b]
        {
          assert prefix[a] == order[a] && prefix[b] == order[b];
        }
      }
      SelectDescending(keep, prefix);
      forall a | 0 <= a < |q|
        ensures q[a] > order[n]
      {
        SelectMembers(keep, prefix, q[a]);
        var i :| 0 <= i < |prefix| && prefix[i] == q[a];
        assert order[i] == q[a];
      }
      forall a, b | 0 <= a < b < |p|
        ensures p[a] > p[b]
      {
        assert p[a] == q[a];
        if b < |q| {
          assert p[b] == q[b];
        }
      }
    }
  }

  lemma SelectStep(keep: nat -> bool, order: seq<nat>, k: nat)
    requires k < |order|
    ensures Select(keep, order[..k + 1]) ==
            Select(keep, order[..k]) + (if keep(order[k]) then [order[k]] else [])
  {
    assert order[..k + 1][..k] == order[..k];
  }

  /** The sizes still to make for img, largest first. */
  function Pending(outputDir: string, img: string, onDisk: string -> bool, rewrite: bool): seq<nat>
  {
    Select(WantedSize(outputDir, img, onDisk, rewrite), ThumbSizesDescending)
  }

  /**
   * The sizes to make for img are the thumbnail sizes whose thumbnail is
   * wanted, and they come largest first.
   */
  lemma PendingSizes(outputDir: string, img: string, onDisk: string -> bool, rewrite: bool, s: nat)
    ensures s in Pending(outputDir, img, onDisk, rewrite) <==>
            s in ThumbSizes && Wanted(outputDir, s, img, onDisk, rewrite)
    ensures Descending(Pending(outputDir, img, onDisk, rewrite))
  {
    var keep := WantedSize(outputDir, img, onDisk, rewrite);
    SelectMembers(keep, ThumbSizesDescending, s);
    ThumbSizesVisited(s);
    ThumbSizesDescendingIsSorted();
    SelectDescending(keep, ThumbSizesDescending);
  }

  /** An image has something to make exactly when one of its four thumbnails is wanted. */
  lemma PendingNonEmpty(outputDir: string, img: string, onDisk: string -> bool, rewrite: bool)
    ensures |Pending(outputDir, img, onDisk, rewrite)| > 0 <==>
            exists s :: s in ThumbSizes && Wanted(outputDir, s, img, onDisk, rewrite)
  {
    var p := Pending(outputDir, img, onDisk, rewrite);
    if |p| > 0 {
      PendingSizes(outputDir, img, onDisk, rewrite, p[0]);
    }
    if exists s :: s in ThumbSizes && Wanted(outputDir, s, img, onDisk, rewrite) {
      var s :| s in ThumbSizes && Wanted(outputDir, s, img, onDisk, rewrite);
      PendingSizes(outputDir, img, onDisk, rewrite, s);
    }
  }

  /** The argument tuple handed to resize_thumb: [img_path, idx, n_imgs, sizes, out_paths]. */
  datatype ResizeArgs = ResizeArgs(imgPath: string, idx: nat, nImgs: nat, sizes: seq<nat>,
                                   outPaths: seq<string>)

  /** The thumbnail path of img for each size, in the same order. */
  function OutPaths(outputDir: string, img: string, sizes: seq<nat>): (ps: seq<string>)
    ensures |ps| == |sizes|
  {
    if |sizes| == 0 then []
    else OutPaths(outputDir, img, sizes[..|sizes| - 1]) + [ThumbPath(outputDir, sizes[|sizes| - 1], img)]
  }

  lemma OutPathsSnoc(outputDir: string, img: string, sizes: seq<nat>, s: nat)
    ensures OutPaths(outputDir, img, sizes + [s]) == OutPaths(outputDir, img, sizes) + [ThumbPath(outputDir, s, img)]
  {
    assert (sizes + [s])[..|sizes|] == sizes;
  }

  /**
   * resize_args after the first upTo images, given each image's sizes still
   * to make and the paths of those sizes: one tuple per image with at least
   * one size, in image order.
   */
  function Jobs(images: seq<string>, upTo: nat, pending: string -> seq<nat>,
                paths: (string, seq<nat>) -> seq<string>): seq<ResizeArgs>
    requires upTo <= |images|
  {
    if upTo == 0 then []
    else
      var img := images[upTo - 1];
      var sizes := pending(img);
      Jobs(images, upTo - 1, pending, paths) +
      (if |sizes| > 0 then [ResizeArgs(img, upTo - 1, |images|, sizes, paths(img, sizes))] else [])
  }

  function PendingOf(outputDir: string, onDisk: string -> bool, rewrite: bool): string -> seq<nat>
  {
    img => Pending(outputDir, img, onDisk, rewrite)
  }

  function OutPathsOf(outputDir: string): (string, seq<nat>) -> seq<string>
  {
    (img, sizes) => OutPaths(outputDir, img, sizes)
  }

  /** create_image_thumbs' resize_args for the first upTo images. */
  function ThumbJobs(images: seq<string>, upTo: nat, outputDir: string, onDisk: string -> bool,
                     rewrite: bool): seq<ResizeArgs>
    requires upTo <= |images|
  {
    Jobs(images, upTo, PendingOf(outputDir, onDisk, rewrite), OutPathsOf(outputDir))
  }

  /** create_image_thumbs up to the worker pool: the resize jobs, in image order. */
  method CreateImageThumbs(images: seq<string>, outputDir: string, onDisk: string -> bool, rewrite: bool)
    returns (resizeArgs: seq<ResizeArgs>)
    ensures resizeArgs == ThumbJobs(images, |images|, outputDir, onDisk, rewrite)
  {
    resizeArgs := [];
    for c := 0 to |images|
      invariant resizeArgs == ThumbJobs(images, c, outputDir, onDisk, rewrite)
    {
      resizeArgs := NextImageJob(images, c, outputDir, onDisk, rewrite, resizeArgs);
    }
  }

  /** One pass of create_image_thumbs' outer loop: image c's job, when it has sizes to make, is appended. */
  method NextImageJob(images: seq<string>, c: nat, outputDir: string, onDisk: string -> bool, rewrite: bool,
                      resizeArgs: seq<ResizeArgs>) returns (next: seq<ResizeArgs>)
    requires c < |images|
    requires resizeArgs == ThumbJobs(images, c, outputDir, onDisk, rewrite)
    ensures next == ThumbJobs(images, c + 1, outputDir, onDisk, rewrite)
  {
    var j := images[c];
    var sizes, outPaths := PendingThumbs(j, outputDir, onDisk, rewrite);
    ThumbJobsStep(images, c, outputDir, onDisk, rewrite, sizes, outPaths);
    if |sizes| > 0 {
      next := resizeArgs + [ResizeArgs(j, c, |images|, sizes, outPaths)];
    } else {
      next := resizeArgs;
    }
  }

  /** One more image: its job is appended when it has any size still to make. */
  lemma ThumbJobsStep(images: seq<string>, c: nat, outputDir: string, onDisk: string -> bool, rewrite: bool,
                      sizes: seq<nat>, outPaths: seq<string>)
    requires c < |images|
    requires sizes == Pending(outputDir, images[c], onDisk, rewrite)
    requires outPaths == OutPaths(outputDir, images[c], sizes)
    ensures ThumbJobs(images, c + 1, outputDir, onDisk, rewrite) ==
            ThumbJobs(images, c, outputDir, onDisk, rewrite) +
            (if |sizes| > 0 then [ResizeArgs(images[c], c, |images|, sizes, outPaths)] else [])
  {
    assert PendingOf(outputDir, onDisk, rewrite)(images[c]) == Pending(outputDir, images[c], onDisk, rewrite);
  }

  /** The inner loop of create_image_thumbs: the sizes of one image still to make, and their paths. */
  method PendingThumbs(j: string, outputDir: string, onDisk: string -> bool, rewrite: bool)
    returns (sizes: seq<nat>, outPaths: seq<string>)
    ensures sizes == Pending(outputDir, j, onDisk, rewrite)
    ensures outPaths == OutPaths(outputDir, j, sizes)
  {
    ghost var keep := WantedSize(outputDir, j, onDisk, rewrite);
    var order := ThumbSizesDescending;
    sizes, outPaths := [], [];
    var k := 0;
    while k < |order|
      invariant k <= |order|
      invariant sizes == Select(keep, order[..k])
      invariant outPaths == OutPaths(outputDir, j, sizes)
    {
      var i := order[k];
      var outPath := ThumbPath(outputDir, i, j);
      SelectStep(keep, order, k);
      ghost var next := Select(keep, order[..k + 1]);
      if !(onDisk(outPath) && !rewrite) {
        assert keep(i);
        assert next == sizes + [i];
        OutPathsSnoc(outputDir, j, sizes, i);
        sizes := sizes + [i];
        outPaths := outPaths + [outPath];
      } else {
        assert !keep(i);
        assert next == sizes;
      }
      k := k + 1;
    }
    assert order[..k] == order;
  }

  /**
   * A job is what resize_thumb expects: at least one size, the paths of
   * those sizes, and the image, its position and the image count are the
   * input's.
   */
  predicate JobOk(images: seq<string>, job: ResizeArgs, pending: string -> seq<nat>,
                  paths: (string, seq<nat>) -> seq<string>)
  {
    job.idx < |images| && job.imgPath == images[job.idx] && job.nImgs == |images| &&
    job.sizes == pending(job.imgPath) && |job.sizes| >= 1 && job.outPaths == paths(job.imgPath, job.sizes)
  }

  lemma {:induction false} JobsWellFormed(images: seq<string>, upTo: nat, pending: string -> seq<nat>,
                                          paths: (string, seq<nat>) -> seq<string>)
    requires upTo <= |images|
    ensures forall k :: 0 <= k < |Jobs(images, upTo, pending, paths)| ==>
              Jobs(images, upTo, pending, paths)[k].idx < upTo &&
              JobOk(images, Jobs(images, upTo, pending, paths)[k], pending, paths)
  {
    if upTo > 0 {
      JobsWellFormed(images, upTo - 1, pending, paths);
    }
  }

  /** Jobs follow the images' order, at most one per image. */
  lemma {:induction false} JobsOrdered(images: seq<string>, upTo: nat, pending: string -> seq<nat>,
                                       paths: (string, seq<nat>) -> seq<string>)
    requires upTo <= |images|
    ensures forall k, l :: 0 <= k < l < |Jobs(images, upTo, pending, paths)| ==>
              Jobs(images, upTo, pending, paths)[k].idx < Jobs(images, upTo, pending, paths)[l].idx
  {
    if upTo > 0 {
      JobsOrdered(images, upTo - 1, pending, paths);
      JobsWellFormed(images, upTo - 1, pending, paths);
    }
  }

  /** Some job is for the image at position c. */
  predicate HasJob(jobs: seq<ResizeArgs>, c: nat)
  {
    exists k :: 0 <= k < |jobs| && jobs[k].idx == c
  }

  /** An image among the first upTo gets a job exactly when it has a size to make. */
  lemma {:induction false} JobsComplete(images: seq<string>, upTo: nat, pending: string -> seq<nat>,
                                        paths: (string, seq<nat>) -> seq<string>, c: nat)
    requires c < upTo <= |images|
    ensures HasJob(Jobs(images, upTo, pending, paths), c) <==> |pending(images[c])| > 0
  {
    var jobs := Jobs(images, upTo, pending, paths);
    var prev := Jobs(images, upTo - 1, pending, paths);
    JobsWellFormed(images, upTo - 1, pending, paths);
    var sizes := pending(images[upTo - 1]);
    var added := if |sizes| > 0 then [ResizeArgs(images[upTo - 1], upTo - 1, |images|, sizes,
                                                 paths(images[upTo - 1], sizes))] else [];
    assert jobs == prev + added;
    if c < upTo - 1 {
      JobsComplete(images, upTo - 1, pending, paths, c);
      if HasJob(jobs, c) {
        var k :| 0 <= k < |jobs| && jobs[k].idx == c;
        assert k < |prev| && prev[k].idx == c;
      }
      if HasJob(prev, c) {
        var k :| 0 <= k < |prev| && prev[k].idx == c;
        assert jobs[k] == prev[k];
      }
    } else {
      if HasJob(jobs, c) {
        var k :| 0 <= k < |jobs| && jobs[k].idx == c;
        assert k == |prev|;
      }
      if |sizes| > 0 {
        assert jobs[|prev|].idx == c;
      }
    }
  }

  /**
   * Every job of create_image_thumbs is well formed: its sizes are the
   * image's pending sizes, with their thumbnail paths.
   */
  lemma ThumbJobsWellFormed(images: seq<string>, outputDir: string, onDisk: string -> bool, rewrite: bool,
                            k: nat)
    requires k < |ThumbJobs(images, |images|, outputDir, onDisk, rewrite)|
    ensures var job := ThumbJobs(images, |images|, outputDir, onDisk, rewrite)[k];
            job.idx < |images| && job.imgPath == images[job.idx] && job.nImgs == |images| &&
            job.sizes == Pending(outputDir, job.imgPath, onDisk, rewrite) && |job.sizes| >= 1 &&
            job.outPaths == OutPaths(outputDir, job.imgPath, job.sizes)
  {
    JobsWellFormed(images, |images|, PendingOf(outputDir, onDisk, rewrite), OutPathsOf(outputDir));
  }

  /** create_image_thumbs makes jobs in image order. */
  lemma ThumbJobsOrdered(images: seq<string>, outputDir: string, onDisk: string -> bool, rewrite: bool,
                         k: nat, l: nat)
    requires k < l < |ThumbJobs(images, |images|, outputDir, onDisk, rewrite)|
    ensures ThumbJobs(images, |images|, outputDir, onDisk, rewrite)[k].idx <
            ThumbJobs(images, |images|, outputDir, onDisk, rewrite)[l].idx
  {
    JobsOrdered(images, |images|, PendingOf(outputDir, onDisk, rewrite), OutPathsOf(outputDir));
  }

  /** An image gets a job exactly when one of its thumbnails is still wanted. */
  lemma ThumbJobsComplete(images: seq<string>, outputDir: string, onDisk: string -> bool, rewrite: bool,
                          c: nat)
    requires c < |images|
    ensures HasJob(ThumbJobs(images, |images|, outputDir, onDisk, rewrite), c) <==>
            exists s :: s in ThumbSizes && Wanted(outputDir, s, images[c], onDisk, rewrite)
  {
    JobsComplete(images, |images|, PendingOf(outputDir, onDisk, rewrite), OutPathsOf(outputDir), c);
    assert PendingOf(outputDir, onDisk, rewrite)(images[c]) == Pending(outputDir, images[c], onDisk, rewrite);
    PendingNonEmpty(outputDir, images[c], onDisk, rewrite);
  }

  // ---------------------------------------------------------------- resize_thumb

  /** One link of the chained convert command: resize, then write (unless last) to an output. */
  datatype ResizeStep = ResizeStep(size: nat, write: bool, out: string)

  /** The steps resize_thumb chains: one per size, with '-write' on all but the last. */
  function ResizeSteps(sizes: seq<nat>, outPaths: seq<string>): (steps: seq<ResizeStep>)
    requires |sizes| <= |outPaths|
    ensures |steps| == |sizes|
  {
    seq(|sizes|, i requires 0 <= i < |sizes| =>
      ResizeStep(sizes[i], i != |sizes| - 1, outPaths[i]))
  }

  function RenderStep(s: ResizeStep): string
  {
    var side := NatToString(s.size);
    "-resize \"" + side + "X" + side + ">\" " + (if s.write then "-write " else "") +
    "\"" + s.out + "\" "
  }

  function RenderSteps(steps: seq<ResizeStep>): string
  {
    if |steps| == 0 then "" else RenderSteps(steps[..|steps| - 1]) + RenderStep(steps[|steps| - 1])
  }

  /** The part before the steps: the decode-size hint is the first (largest) size. */
  function ResizeHead(osName: string, imgPath: string, first: nat): string
  {
    var side := NatToString(first);
    GetMagickCommand("convert", osName) + " " +
    "-define jpeg:size={" + side + "x" + side + "} " +
    "\"" + imgPath + "\" " + "-strip " + "-background none " + "-gravity center "
  }

  /** resize_thumb's command, built with += as the source builds it. */
  method ResizeCommand(args: ResizeArgs, osName: string) returns (cmd: string)
    requires 1 <= |args.sizes| <= |args.outPaths|
    ensures cmd == ResizeHead(osName, args.imgPath, args.sizes[0]) +
                   RenderSteps(ResizeSteps(args.sizes, args.outPaths))
  {
    var sizes, outPaths := args.sizes, args.outPaths;
    cmd := GetMagickCommand("convert", osName) + " ";
    cmd := cmd + "-define jpeg:size={" + NatToString(sizes[0]) + "x" + NatToString(sizes[0]) + "} ";
    cmd := cmd + "\"" + args.imgPath + "\" ";
    cmd := cmd + "-strip ";
    cmd := cmd + "-background none ";
    cmd := cmd + "-gravity center ";
    ghost var head := cmd;
    ghost var steps := ResizeSteps(sizes, outPaths);
    var i := 0;
    while i < |sizes|
      invariant i <= |sizes|
      invariant cmd == head + RenderSteps(steps[..i])
    {
      ghost var before := cmd;
      cmd := cmd + "-resize \"" + NatToString(sizes[i]) + "X" + NatToString(sizes[i]) + ">\" ";
      if !(i == |sizes| - 1) {
        cmd := cmd + "-write ";
      }
      cmd := cmd + "\"" + outPaths[i] + "\" ";
      StepText(before, steps[i]);
      RenderStepsSnoc(steps, i);
      AppendAssoc(head, RenderSteps(steps[..i]), RenderStep(steps[i]));
      i := i + 1;
    }
    assert steps[..|sizes|] == steps;
  }

  /** The text one pass of the loop appends is the rendering of its step. */
  lemma StepText(before: string, s: ResizeStep)
    ensures var side := NatToString(s.size);
            s.write ==>
              before + "-resize \"" + side + "X" + side + ">\" " + "-write " + "\"" + s.out + "\" " ==
              before + RenderStep(s)
    ensures var side := NatToString(s.size);
            !s.write ==>
              before + "-resize \"" + side + "X" + side + ">\" " + "\"" + s.out + "\" " ==
              before + RenderStep(s)
  {
    var side := NatToString(s.size);
    var resize := "-resize \"" + side + "X" + side + ">\" ";
    var out := "\"" + s.out + "\" ";
    if s.write {
      AppendAssoc3(before, resize, "-write ", out);
    } else {
      AppendAssoc(before, resize, out);
    }
  }

  lemma AppendAssoc3(a: string, b: string, c: string, d: string)
    ensures a + b + c + d == a + (b + c + d)
  {
  }

  lemma RenderStepsSnoc(steps: seq<ResizeStep>, i: nat)
    requires i < |steps|
    ensures RenderSteps(steps[..i + 1]) == RenderSteps(steps[..i]) + RenderStep(steps[i])
  {
    assert steps[..i + 1][..i] == steps[..i];
  }

  lemma AppendAssoc(a: string, b: string, c: string)
    ensures a + b + c == a + (b + c)
  {
  }

  /** The number of steps that also write their result out. */
  function Writes(steps: seq<ResizeStep>): nat
  {
    if |steps| == 0 then 0 else Writes(steps[..|steps| - 1]) + (if steps[|steps| - 1].write then 1 else 0)
  }

  /**
   * The chain writes every output but the last with '-write' and the last as
   * the command's own output: |sizes| - 1 writes, and the final step writes
   * the last path.
   */
  lemma ResizeStepsWrites(sizes: seq<nat>, outPaths: seq<string>)
    requires 1 <= |sizes| <= |outPaths|
    ensures Writes(ResizeSteps(sizes, outPaths)) == |sizes| - 1
    ensures var steps := ResizeSteps(sizes, outPaths);
            !steps[|steps| - 1].write && steps[|steps| - 1].out == outPaths[|sizes| - 1]
  {
    var steps := ResizeSteps(sizes, outPaths);
    WritesAllButLast(steps, |steps| - 1);
    assert steps[..|steps| - 1] == steps[..|steps| - 1][..|steps| - 1];
  }

  lemma {:induction false} WritesAllButLast(steps: seq<ResizeStep>, k: nat)
    requires k <= |steps|
    requires forall i :: 0 <= i < k ==> steps[i].write
    ensures Writes(steps[..k]) == k
  {
    if k > 0 {
      WritesAllButLast(steps, k - 1);
      assert steps[..k][..k - 1] == steps[..k - 1];
    }
  }

  /** The decode-size hint of a job made by create_image_thumbs is its largest size. */
  lemma HintIsLargest(images: seq<string>, outputDir: string, onDisk: string -> bool, rewrite: bool,
                      k: nat)
    requires k < |ThumbJobs(images, |images|, outputDir, onDisk, rewrite)|
    ensures var job := ThumbJobs(images, |images|, outputDir, onDisk, rewrite)[k];
            forall m :: 0 <= m < |job.sizes| ==> job.sizes[m] <= job.sizes[0]
  {
    var job := ThumbJobs(images, |images|, outputDir, onDisk, rewrite)[k];
    ThumbJobsWellFormed(images, outputDir, onDisk, rewrite, k);
    PendingSizes(outputDir, job.imgPath, onDisk, rewrite, 0);
  }

  /** resize_thumb's result: the image path when the command fails, None when it succeeds. */
  function ResizeResult(args: ResizeArgs, failed: bool): (r: Option<string>)
    ensures r.Some? <==> failed
    ensures r.Some? ==> r.value == args.imgPath
  {
    if failed then Some(args.imgPath) else None
  }

  /** The stems create_image_thumbs adds to errored_images, one per failed job, in result order. */
  function FailedStems(results: seq<Option<string>>): set<string>
  {
    StemSet(GetFilename, results)
  }

  /** The stems, under stem, of the paths among results. */
  function StemSet(stem: string -> string, results: seq<Option<string>>): set<string>
  {
    if |results| == 0 then {}
    else
      var last := results[|results| - 1];
      StemSet(stem, results[..|results| - 1]) + (if last.Some? then {stem(last.value)} else {})
  }

  lemma {:induction false} StemSetMembers(stem: string -> string, results: seq<Option<string>>, name: string)
    ensures name in StemSet(stem, results) <==>
            exists k :: 0 <= k < |results| && results[k].Some? && stem(results[k].value) == name
  {
    if |results| > 0 {
      var n := |results| - 1;
      var prefix := results[..n];
      StemSetMembers(stem, prefix, name);
      if name in StemSet(stem, results) {
        if name in StemSet(stem, prefix) {
          var k :| 0 <= k < |prefix| && prefix[k].Some? && stem(prefix[k].value) == name;
          assert results[k] == prefix[k];
        } else {
          assert results[n].Some? && stem(results[n].value) == name;
        }
      }
      if exists k :: 0 <= k < |results| && results[k].Some? && stem(results[k].value) == name {
        var k :| 0 <= k < |results| && results[k].Some? && stem(results[k].value) == name;
        if k < n {
          assert prefix[k] == results[k];
        }
      }
    }
  }

  /** The errored set create_image_thumbs keeps on the PixPlot object. */
  class ThumbErrors {
    var errored: set<string>

    constructor ()
      ensures errored == {}
    {
      errored := {};
    }

    /** Walks the pool's results in order, adding the stem of every failed path. */
    method Record(results: seq<Option<string>>)
      modifies this
      ensures errored == old(errored) + FailedStems(results)
    {
      var k := 0;
      while k < |results|
        invariant k <= |results|
        invariant errored == old(errored) + FailedStems(results[..k])
      {
        if results[k].Some? {
          errored := errored + {GetFilename(results[k].value)};
        }
        assert results[..k + 1][..k] == results[..k];
        k := k + 1;
      }
      assert results[..|results|] == results;
    }
  }

  /** The results of the pool, one per job: the path of each job whose command failed. */
  function PoolResults(jobs: seq<ResizeArgs>, failed: seq<bool>): (rs: seq<Option<string>>)
    requires |failed| == |jobs|
    ensures |rs| == |jobs|
  {
    seq(|jobs|, k requires 0 <= k < |jobs| => ResizeResult(jobs[k], failed[k]))
  }

  /** A stem is recorded exactly when some result carries a path with that stem. */
  lemma FailedStemsMembers(results: seq<Option<string>>, name: string)
    ensures name in FailedStems(results) <==>
            exists k :: 0 <= k < |results| && results[k].Some? && GetFilename(results[k].value) == name
  {
    StemSetMembers(GetFilename, results, name);
  }

  /** A job's stem is recorded exactly when its command failed. */
  lemma FailedStemsOfResults(jobs: seq<ResizeArgs>, failed: seq<bool>, name: string)
    requires |failed| == |jobs|
    ensures name in FailedStems(PoolResults(jobs, failed)) <==>
            exists k :: 0 <= k < |jobs| && failed[k] && GetFilename(jobs[k].imgPath) == name
  {
    var rs := PoolResults(jobs, failed);
    FailedStemsMembers(rs, name);
    if exists k :: 0 <= k < |jobs| && failed[k] && GetFilename(jobs[k].imgPath) == name {
      var k :| 0 <= k < |jobs| && failed[k] && GetFilename(jobs[k].imgPath) == name;
      assert rs[k] == Some(jobs[k].imgPath);
    }
  }

  // ---------------------------------------------------------------- atlas files

  /** One montage run of write_atlas_files: the list-file text, the command, the atlas path. */
  datatype AtlasJob = AtlasJob(listText: string, cmd: string, outPath: string)

  /** str(x) for a float holding a whole number: Python writes "64.0". */
  function WholeFloatText(n: nat): string
  {
    NatToString(n) + ".0"
  }

  /** Each image path in double quotes, one per line. */
  function ListText(images: seq<string>): string
  {
    Join(seq(|images|, i requires 0 <= i < |images| => "\"" + images[i] + "\""), '\n')
  }

  function AtlasDir(outputDir: string, thumbSize: nat): string
  {
    PathJoin(PathJoin(outputDir, "atlas_files"), NatToString(thumbSize) + "px")
  }

  function AtlasPath(outputDir: string, thumbSize: nat, idx: nat): string
  {
    PathJoin(AtlasDir(outputDir, thumbSize), "atlas-" + NatToString(idx) + ".jpg")
  }

  /** The montage command for atlas idx; atlasCols is 2048 / thumbSize. */
  function MontageCommand(osName: string, outputDir: string, thumbSize: nat, atlasCols: nat,
                          idx: nat): string
  {
    var side := NatToString(thumbSize);
    var cols := WholeFloatText(atlasCols);
    GetMagickCommand("montage", osName) + " @" + PathJoin(outputDir, "images_to_montage.txt") + " " +
    "-background none " +
    "-size " + side + "x" + side + " " +
    "-geometry " + side + "x" + side + "+0+0 " +
    "-tile " + cols + "x" + cols + " " +
    "-quality 85 " +
    "-sampling-factor 4:2:0 " +
    "\"" + AtlasPath(outputDir, thumbSize, idx) + "\""
  }

  /** atlas_cols ** 2 as write_atlas_files computes it: (2048 / thumb_size) squared, in true division. */
  function GroupSize(thumbSize: nat): real
    requires thumbSize >= 1
  {
    (2048.0 / thumbSize as real) * (2048.0 / thumbSize as real)
  }

  /** The montage runs for the first upTo groups: list text, command and output path of each. */
  function AtlasJobs(osName: string, outputDir: string, thumbSize: nat, cols: nat, groups: seq<seq<string>>,
                     upTo: nat): (jobs: seq<AtlasJob>)
    requires upTo <= |groups|
    ensures |jobs| == upTo
  {
    if upTo == 0 then []
    else
      var idx := upTo - 1;
      AtlasJobs(osName, outputDir, thumbSize, cols, groups, idx) +
      [AtlasRun(osName, outputDir, thumbSize, cols, groups[idx], idx)]
  }

  /** The montage run for group idx: the list file text, the command and the atlas it writes. */
  function AtlasRun(osName: string, outputDir: string, thumbSize: nat, cols: nat, group: seq<string>,
                    idx: nat): AtlasJob
  {
    AtlasJob(ListText(group), MontageCommand(osName, outputDir, thumbSize, cols, idx),
             AtlasPath(outputDir, thumbSize, idx))
  }

  /** Run idx lists group idx and writes atlas-<idx>.jpg with the montage command for idx. */
  lemma {:induction false} AtlasJobsAt(osName: string, outputDir: string, thumbSize: nat, cols: nat,
                                       groups: seq<seq<string>>, upTo: nat, idx: nat)
    requires idx < upTo <= |groups|
    ensures AtlasJobs(osName, outputDir, thumbSize, cols, groups, upTo)[idx] ==
            AtlasRun(osName, outputDir, thumbSize, cols, groups[idx], idx)
  {
    if idx < upTo - 1 {
      AtlasJobsAt(osName, outputDir, thumbSize, cols, groups, upTo - 1, idx);
    }
  }

  /**
   * write_atlas_files: thumbnails in groups of int(atlas_cols ** 2), one
   * montage per group; nothing when rewriting atlases is off.  The source
   * divides 2048 by the thumbnail size with true division; for sizes that
   * divide 2048 the quotient is whole, so the groups hold cols * cols.
   */
  method WriteAtlasFiles(thumbSize: nat, thumbs: seq<string>, outputDir: string, osName: string,
                         rewrite: bool)
    returns (jobs: seq<AtlasJob>)
    requires 1 <= thumbSize <= 2048 && 2048 % thumbSize == 0
    ensures !rewrite ==> jobs == []
    ensures rewrite ==>
              var cols := 2048 / thumbSize;
              Subdivide(thumbs, GroupSize(thumbSize)).Ok? &&
              jobs == AtlasJobs(osName, outputDir, thumbSize, cols, Subdivide(thumbs, GroupSize(thumbSize)).value,
                                |Subdivide(thumbs, GroupSize(thumbSize)).value|)
    ensures rewrite ==> jobs == SizeRuns(osName, outputDir, thumbSize, thumbs)
  {
    jobs := [];
    if !rewrite {
      return;
    }
    var cols := 2048 / thumbSize;
    var subdivided := Subdivide(thumbs, GroupSize(thumbSize));
    AtlasGroups(thumbs, thumbSize);
    var groups := subdivided.value;
    var idx := 0;
    while idx < |groups|
      invariant idx <= |groups|
      invariant jobs == AtlasJobs(osName, outputDir, thumbSize, cols, groups, idx)
    {
      var outPath := PathJoin(AtlasDir(outputDir, thumbSize), "atlas-" + NatToString(idx) + ".jpg");
      var text := ListText(groups[idx]);
      var cmd := MontageCommand(osName, outputDir, thumbSize, cols, idx);
      assert AtlasJob(text, cmd, outPath) == AtlasRun(osName, outputDir, thumbSize, cols, groups[idx], idx);
      jobs := jobs + [AtlasJob(text, cmd, outPath)];
      idx := idx + 1;
    }
  }

  /** The montage runs for one thumbnail size: one per chunk of cols * cols thumbnails, in order. */
  function SizeRuns(osName: string, outputDir: string, thumbSize: nat, thumbs: seq<string>): seq<AtlasJob>
    requires 1 <= thumbSize <= 2048 && 2048 % thumbSize == 0
  {
    ColsExact(thumbSize);
    var cols := 2048 / thumbSize;
    var groups := Chunks(thumbs, cols * cols);
    AtlasJobs(osName, outputDir, thumbSize, cols, groups, |groups|)
  }

  /** The groups are the thumbnails in order, cols * cols to a group, so one atlas per AtlasFileCount. */
  lemma AtlasGroups(thumbs: seq<string>, thumbSize: nat)
    requires 1 <= thumbSize <= 2048 && 2048 % thumbSize == 0
    ensures var cols := 2048 / thumbSize;
            Subdivide(thumbs, GroupSize(thumbSize)) == Ok(Chunks(thumbs, cols * cols)) &&
            |Chunks(thumbs, cols * cols)| == AtlasFileCount(|thumbs|, thumbSize)
  {
    var cols := 2048 / thumbSize;
    var n := cols * cols;
    ColsExact(thumbSize);
    assert TruncToInt(GroupSize(thumbSize)) == n;
    SubdivideWhole(thumbs, GroupSize(thumbSize), n);
  }

  lemma SubdivideWhole(thumbs: seq<string>, size: real, n: nat)
    requires n >= 1 && TruncToInt(size) == n
    ensures Subdivide(thumbs, size) == Ok(Chunks(thumbs, n))
  {
  }

  /**
   * Every atlas job of write_atlas_files: group idx of cols * cols
   * thumbnails, written to atlas-<idx>.jpg; as many jobs as AtlasFileCount.
   */
  lemma WriteAtlasJobs(osName: string, outputDir: string, thumbSize: nat, thumbs: seq<string>, idx: nat)
    requires 1 <= thumbSize <= 2048 && 2048 % thumbSize == 0
    requires idx < AtlasFileCount(|thumbs|, thumbSize)
    ensures var cols := 2048 / thumbSize;
            var groups := Chunks(thumbs, cols * cols);
            var jobs := AtlasJobs(osName, outputDir, thumbSize, cols, groups, |groups|);
            |jobs| == AtlasFileCount(|thumbs|, thumbSize) &&
            jobs[idx] == AtlasJob(ListText(groups[idx]), MontageCommand(osName, outputDir, thumbSize, cols, idx),
                                  AtlasPath(outputDir, thumbSize, idx))
  {
    var cols := 2048 / thumbSize;
    AtlasGroups(thumbs, thumbSize);
    AtlasJobsAt(osName, outputDir, thumbSize, cols, Chunks(thumbs, cols * cols),
                |Chunks(thumbs, cols * cols)|, idx);
  }

  /** How many atlases write_atlas_files makes of n thumbnails of one size. */
  function AtlasFileCount(n: nat, thumbSize: nat): nat
    requires 1 <= thumbSize <= 2048
  {
    CeilDiv(n, (2048 / thumbSize) * (2048 / thumbSize))
  }

  /** 2048 / thumbSize is whole, so int(atlas_cols ** 2) is cols * cols. */
  lemma ColsExact(thumbSize: nat)
    requires 1 <= thumbSize <= 2048 && 2048 % thumbSize == 0
    ensures var cols := 2048 / thumbSize;
            cols >= 1 &&
            2048.0 / thumbSize as real == cols as real &&
            TruncToInt(GroupSize(thumbSize)) == cols * cols
  {
    var cols := 2048 / thumbSize;
    assert cols * thumbSize == 2048;
    assert (cols as real) * (thumbSize as real) == 2048.0;
    assert ((cols * cols) as real).Floor == cols * cols;
  }

  /**
   * The atlas files at 32px and 64px are as many as get_atlas_counts
   * announces for the same number of images: groups of 64 x 64 and 32 x 32.
   */
  lemma AtlasFilesMatchCounts(n: nat)
    ensures AtlasFileCount(n, 32) == GetAtlasCounts(n).px32
    ensures AtlasFileCount(n, 64) == GetAtlasCounts(n).px64
  {
  }

  /**
   * The positions behind the atlases leave out errored images, while the
   * counts are taken over all vector files: never fewer announced atlases
   * than atlas files, and as many when nothing was left out.
   */
  lemma AnnouncedCountsCoverAtlases(positions: nat, vectorFiles: nat)
    requires positions <= vectorFiles
    ensures AtlasFileCount(positions, 32) <= GetAtlasCounts(vectorFiles).px32
    ensures AtlasFileCount(positions, 64) <= GetAtlasCounts(vectorFiles).px64
  {
    CeilDivMonotone(positions, vectorFiles, 4096);
    CeilDivMonotone(positions, vectorFiles, 1024);
  }

  lemma CeilDivMonotone(a: nat, b: nat, d: nat)
    requires a <= b && d > 0
    ensures CeilDiv(a, d) <= CeilDiv(b, d)
  {
    if CeilDiv(a, d) > CeilDiv(b, d) {
      MulMonotone(CeilDiv(a, d) - 1, CeilDiv(b, d), d);
      assert false;
    }
  }

  /** The 32px montage tiles 64.0 x 64.0 while grouping 4096 thumbnails per atlas. */
  lemma TileTextAt32()
    ensures WholeFloatText(2048 / 32) == "64.0"
    ensures TruncToInt(GroupSize(32)) == 4096
  {
    ColsExact(32);
    assert NatToString(64) == NatToString(6) + [DigitChar(4)];
  }

  // ---------------------------------------------------------------- create_atlas_files

  /** get_atlas_thumbs: the thumbnail path of every position, in order. */
  function AtlasThumbs(outputDir: string, thumbSize: nat, positionNames: seq<string>): (ts: seq<string>)
    ensures |ts| == |positionNames|
  {
    seq(|positionNames|, i requires 0 <= i < |positionNames| =>
      PathJoin(ThumbDir(outputDir, thumbSize), positionNames[i] + ".jpg"))
  }

  /** Python's all(i == xs[0] for i in xs): true on an empty list without reading xs[0]. */
  predicate AllEqualFirst(xs: seq<nat>)
  {
    forall i :: 0 <= i < |xs| ==> xs[i] == xs[0]
  }

  /**
   * create_atlas_files: for sizes[1:-1] (32px, then 64px) the thumbnails of
   * every position, one group count per size, then the montage jobs.
   */
  method CreateAtlasFiles(positionNames: seq<string>, outputDir: string, osName: string, rewrite: bool)
    returns (jobs: seq<seq<AtlasJob>>, groupCounts: seq<nat>)
    ensures groupCounts == [|positionNames|, |positionNames|]
    ensures AllEqualFirst(groupCounts)
    ensures |jobs| == 2
    ensures jobs[0] == SizeJobs(osName, outputDir, 32, positionNames, rewrite)
    ensures jobs[1] == SizeJobs(osName, outputDir, 64, positionNames, rewrite)
    ensures !rewrite ==> jobs[0] == [] && jobs[1] == []
    ensures rewrite ==> |jobs[0]| == AtlasFileCount(|positionNames|, 32) &&
                        |jobs[1]| == AtlasFileCount(|positionNames|, 64)
  {
    var sizes := ThumbSizes[1..|ThumbSizes| - 1];
    assert sizes == [32, 64];
    jobs := [];
    groupCounts := [];
    for k := 0 to |sizes|
      invariant |jobs| == |groupCounts| == k
      invariant forall i :: 0 <= i < k ==> groupCounts[i] == |positionNames|
      invariant forall i :: 0 <= i < k ==>
                  jobs[i] == SizeJobs(osName, outputDir, sizes[i], positionNames, rewrite)
    {
      var written, count := CreateSizeAtlases(sizes[k], positionNames, outputDir, osName, rewrite);
      groupCounts := groupCounts + [count];
      jobs := jobs + [written];
    }
    SizeRunsCount(osName, outputDir, 32, positionNames);
    SizeRunsCount(osName, outputDir, 64, positionNames);
  }

  /** One pass of create_atlas_files' loop: the size's thumbnails, their count and the atlases written. */
  method CreateSizeAtlases(thumbSize: nat, positionNames: seq<string>, outputDir: string, osName: string,
                           rewrite: bool)
    returns (written: seq<AtlasJob>, count: nat)
    requires 1 <= thumbSize <= 2048 && 2048 % thumbSize == 0
    ensures count == |positionNames|
    ensures written == SizeJobs(osName, outputDir, thumbSize, positionNames, rewrite)
  {
    var atlasThumbs := AtlasThumbs(outputDir, thumbSize, positionNames);
    count := |atlasThumbs|;
    written := WriteAtlasFiles(thumbSize, atlasThumbs, outputDir, osName, rewrite);
  }

  /** What create_atlas_files writes for one size: nothing without rewriting, else that size's runs. */
  function SizeJobs(osName: string, outputDir: string, thumbSize: nat, positionNames: seq<string>,
                    rewrite: bool): seq<AtlasJob>
    requires 1 <= thumbSize <= 2048 && 2048 % thumbSize == 0
  {
    if rewrite then SizeRuns(osName, outputDir, thumbSize, AtlasThumbs(outputDir, thumbSize, positionNames))
    else []
  }

  /** One size's runs are as many as get_atlas_counts announces atlases for that size. */
  lemma SizeRunsCount(osName: string, outputDir: string, thumbSize: nat, positionNames: seq<string>)
    requires 1 <= thumbSize <= 2048 && 2048 % thumbSize == 0
    ensures |SizeRuns(osName, outputDir, thumbSize, AtlasThumbs(outputDir, thumbSize, positionNames))| ==
            AtlasFileCount(|positionNames|, thumbSize)
  {
    AtlasGroups(AtlasThumbs(outputDir, thumbSize, positionNames), thumbSize);
  }
}
