/**
 * utils/make_montage.py: lay the selected images out on a square grid,
 * then pad the montage to a power-of-two square.
 */
module MakeMontage {
  import opened IntMath
  import opened Strings

  /** The side of the grid: ceil(count ** (1/2)), the smallest side whose square holds every image. */
  function GridSide(count: nat): (n: nat)
    ensures n * n >= count
    ensures n == 0 || (n - 1) * (n - 1) < count
    ensures n == 0 <==> count == 0
  {
    CeilSqrt(count)
  }

  /** The montage command tiling the selected images n by n. */
  function TileCommand(dataDir: string, n: nat): (cmd: string)
    ensures var pre := TileHead(dataDir);
            var e := |pre| + |NatToString(n)|;
            |cmd| >= e && cmd[..|pre|] == pre && ParseNat(cmd[|pre|..e]) == n &&
            cmd[e..] == "x" + NatToString(n) + " " + dataDir + "image-atlas.jpg"
  {
    var post := "x" + NatToString(n) + " " + dataDir + "image-atlas.jpg";
    NumberReadBack(TileHead(dataDir), n, post);
    TileHead(dataDir) + NatToString(n) + post
  }

  /** The montage command up to its tile count. */
  function TileHead(dataDir: string): string
  {
    "montage " + dataDir + "\"selected_images/*.jpg\" -tile "
  }

  /** The convert command padding the montage to extent x extent. */
  function ExtentCommand(dataDir: string, extent: nat): (cmd: string)
    ensures var e := |ExtentHead| + |NatToString(extent)|;
            |cmd| >= e && cmd[..|ExtentHead|] == ExtentHead && ParseNat(cmd[|ExtentHead|..e]) == extent &&
            cmd[e..] == "x" + NatToString(extent) + " " + dataDir + "image-atlas-pot.jpg"
  {
    var post := "x" + NatToString(extent) + " " + dataDir + "image-atlas-pot.jpg";
    NumberReadBack(ExtentHead, extent, post);
    ExtentHead + NatToString(extent) + post
  }

  /** The convert command up to its extent. */
  const ExtentHead: string := "convert ../data/image-atlas.jpg -gravity NorthWest -background white -extent "

  /**
   * The power-of-two loop: i grows from 0 while 2 ** i is below n * 128, so
   * it stops at the smallest i with 2 ** i >= n * 128; i stays 0 exactly
   * when the grid is empty.
   */
  method PowerOfTwoExponent(n: nat) returns (i: nat)
    ensures Pow2(i) >= n * 128
    ensures forall j: nat :: Pow2(j) >= n * 128 ==> i <= j
    ensures i == 0 <==> n == 0
  {
    i := 0;
    while Pow2(i) < n * 128
      invariant i == 0 || Pow2(i - 1) < n * 128
      decreases n * 128 - Pow2(i)
    {
      i := i + 1;
    }
    forall j: nat | Pow2(j) >= n * 128
      ensures i <= j
    {
      if j < i {
        Pow2Monotone(j, i - 1);
      }
    }
  }

  /**
   * The whole script for count selected images: the grid side, the tile
   * command, the exponent and the padding command; the padded square is a
   * power of two no smaller than the n * 128 pixel montage, and the
   * smallest such.
   */
  method BuildAtlas(count: nat, dataDir: string) returns (n: nat, tileCmd: string, i: nat, extentCmd: string)
    ensures n * n >= count && (n == 0 || (n - 1) * (n - 1) < count)
    ensures tileCmd == TileCommand(dataDir, n)
    ensures Pow2(i) >= n * 128 && forall j: nat :: Pow2(j) >= n * 128 ==> i <= j
    ensures i == 0 <==> count == 0
    ensures extentCmd == ExtentCommand(dataDir, Pow2(i))
  {
    n := GridSide(count);
    tileCmd := TileCommand(dataDir, n);
    i := PowerOfTwoExponent(n);
    extentCmd := ExtentCommand(dataDir, Pow2(i));
  }
}
