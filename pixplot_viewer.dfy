/**
 * Index arithmetic of the pixplot viewer (pixplot/web/assets/js/tsne.js):
 * where an atlas sits inside a texture, how many atlases each texture
 * loads, how Data.addCells numbers the cells atlas by atlas, how a cell
 * finds its atlas and its index in that atlas, and its draw call.
 *
 * Sizes are in pixels.  The texture side T is the WebGL limit and the atlas
 * side A comes from the manifest; the model takes T to be a multiple of A,
 * so that atlasesPerTex = (T / A)^2 is a whole number.
 */
module PixplotViewer {
  import opened IntMath
  import opened AtlasPacker

  datatype Offset = Offset(x: nat, y: nat)

  /** config.atlasesPerTex = (T / A)^2. */
  function AtlasesPerTex(textureSize: nat, atlasSize: nat): nat
    requires atlasSize >= 1 && textureSize % atlasSize == 0
  {
    (textureSize / atlasSize) * (textureSize / atlasSize)
  }

  /**
   * getAtlasOffset(idx): x = (idx * A) mod T, y = floor(idx * A / T) * A.
   * The column lies inside the texture, the row is a whole number of atlas
   * sides, and row-major the two give back the atlas's run position idx * A.
   */
  function AtlasOffset(idx: nat, atlasSize: nat, textureSize: nat): (o: Offset)
    requires textureSize >= 1
    ensures o.x < textureSize
    ensures atlasSize >= 1 ==> o.y % atlasSize == 0 && o.x + (o.y / atlasSize) * textureSize == idx * atlasSize
  {
    var row := (idx * atlasSize) / textureSize;
    MulDivExact(row, atlasSize);
    Offset((idx * atlasSize) % textureSize, row * atlasSize)
  }

  /** With T = k * A, atlas idx sits in column idx mod k and row idx div k of a k-by-k grid. */
  lemma AtlasOffsetGrid(idx: nat, atlasSize: nat, k: nat)
    requires atlasSize >= 1 && k >= 1
    ensures AtlasOffset(idx, atlasSize, k * atlasSize) ==
            Offset((idx % k) * atlasSize, (idx / k) * atlasSize)
  {
    var q, r := idx / k, idx % k;
    assert idx == q * k + r;
    assert idx * atlasSize == q * (k * atlasSize) + r * atlasSize by {
      assert idx * atlasSize == (q * k + r) * atlasSize;
      assert (q * k + r) * atlasSize == q * k * atlasSize + r * atlasSize;
    }
    assert r * atlasSize < k * atlasSize by {
      MulMonotone(k - 1, r, atlasSize);
      assert (k - 1) * atlasSize == k * atlasSize - atlasSize;
    }
    DivModUnique(idx * atlasSize, k * atlasSize, q, r * atlasSize);
  }

  /**
   * For an atlas index below atlasesPerTex, the offset is a multiple of the
   * atlas size in both directions and the whole atlas lies inside the texture.
   */
  lemma AtlasOffsetInTexture(idx: nat, atlasSize: nat, k: nat)
    requires atlasSize >= 1 && k >= 1 && idx < k * k
    ensures var o := AtlasOffset(idx, atlasSize, k * atlasSize);
            o.x % atlasSize == 0 && o.y % atlasSize == 0 &&
            o.x + atlasSize <= k * atlasSize && o.y + atlasSize <= k * atlasSize
  {
    AtlasOffsetGrid(idx, atlasSize, k);
    var q, r := idx / k, idx % k;
    assert q < k by {
      if q >= k {
        MulMonotone(q, k, k);
        assert false;
      }
    }
    MulDivExact(r, atlasSize);
    MulDivExact(q, atlasSize);
    MulMonotone(k, r + 1, atlasSize);
    MulMonotone(k, q + 1, atlasSize);
    assert (r + 1) * atlasSize == r * atlasSize + atlasSize;
    assert (q + 1) * atlasSize == q * atlasSize + atlasSize;
  }

  /** Distinct atlases of one texture get distinct offsets. */
  lemma AtlasOffsetInjective(i: nat, j: nat, atlasSize: nat, k: nat)
    requires atlasSize >= 1 && k >= 1
    requires AtlasOffset(i, atlasSize, k * atlasSize) == AtlasOffset(j, atlasSize, k * atlasSize)
    ensures i == j
  {
    AtlasOffsetGrid(i, atlasSize, k);
    AtlasOffsetGrid(j, atlasSize, k);
    DivModUnique((i % k) * atlasSize, atlasSize, i % k, 0);
    DivModUnique((j % k) * atlasSize, atlasSize, j % k, 0);
    DivModUnique((i / k) * atlasSize, atlasSize, i / k, 0);
    DivModUnique((j / k) * atlasSize, atlasSize, j / k, 0);
  }

  /**
   * Data.addCells offsets a cell by getAtlasOffset of its global atlas
   * index, while Texture.onAtlasLoad draws the atlas at the offset of its
   * index within the texture.  The two agree in x; in y the global offset is
   * larger by one texture side per preceding texture.
   */
  lemma GlobalOffsetAcrossTextures(i: nat, atlasSize: nat, k: nat)
    requires atlasSize >= 1 && k >= 1
    ensures var apt := k * k;
            var g := AtlasOffset(i, atlasSize, k * atlasSize);
            var l := AtlasOffset(i % apt, atlasSize, k * atlasSize);
            g.x == l.x && g.y == l.y + (i / apt) * (k * atlasSize)
  {
    var apt := k * k;
    var t, r := i / apt, i % apt;
    AtlasOffsetGrid(i, atlasSize, k);
    AtlasOffsetGrid(r, atlasSize, k);
    DivNested(i, k);
    RowShift(t, r / k, k, atlasSize);
  }

  /** Dividing by k after splitting off whole blocks of k * k. */
  lemma DivNested(i: nat, k: nat)
    requires k >= 1
    ensures i / k == (i / (k * k)) * k + (i % (k * k)) / k
    ensures i % k == (i % (k * k)) % k
  {
    var apt := k * k;
    var t, r := i / apt, i % apt;
    var q := t * k + r / k;
    assert i == t * apt + r;
    assert r == (r / k) * k + r % k;
    assert q * k == t * apt + (r / k) * k by {
      assert q * k == (t * k) * k + (r / k) * k;
      assert (t * k) * k == t * (k * k);
    }
    DivModUnique(i, k, q, r % k);
  }

  lemma RowShift(t: nat, row: nat, k: nat, atlasSize: nat)
    ensures (t * k + row) * atlasSize == row * atlasSize + t * (k * atlasSize)
  {
    assert (t * k + row) * atlasSize == (t * k) * atlasSize + row * atlasSize;
    assert (t * k) * atlasSize == t * (k * atlasSize);
  }

  /** data.textureCount = ceil(atlasCount / atlasesPerTex). */
  function TextureCount(atlasCount: nat, apt: nat): nat
    requires apt >= 1
  {
    CeilDiv(atlasCount, apt)
  }

  /**
   * Texture.getAtlasCount as written: atlasesPerTex while
   * atlasCount / atlasesPerTex exceeds idx + 1, else atlasCount mod atlasesPerTex.
   */
  function AtlasCountAsWritten(atlasCount: nat, apt: nat, texIdx: nat): (n: nat)
    requires apt >= 1
    ensures n <= apt
  {
    if atlasCount > (texIdx + 1) * apt then apt else atlasCount % apt
  }

  /** The atlases of textures 0 .. t-1 under a per-texture count function. */
  function LoadedAtlases(counts: nat -> nat, t: nat): nat
  {
    if t == 0 then 0 else LoadedAtlases(counts, t - 1) + counts(t - 1)
  }

  /**
   * With 8 atlases and 4 per texture there are 2 textures; the second is
   * given 0 atlases, so only 4 of the 8 atlases are ever loaded (and the
   * texture never reports itself loaded).
   */
  lemma AtlasCountDropsFullLastTexture()
    ensures TextureCount(8, 4) == 2
    ensures AtlasCountAsWritten(8, 4, 1) == 0
    ensures LoadedAtlases(t => AtlasCountAsWritten(8, 4, t), 2) == 4
  {
    assert TextureCount(8, 4) == 2 by {
      assert (8 + 4 - 1) / 4 == 2;
    }
  }

  /** The number of atlases texture texIdx loads: a full texture, or the remainder for the last one. */
  function AtlasCount(atlasCount: nat, apt: nat, texIdx: nat): (n: nat)
    requires apt >= 1
    ensures n <= apt
    ensures texIdx * apt + n <= atlasCount || n == 0
    ensures (texIdx + 1) * apt <= atlasCount ==> n == apt
  {
    if (texIdx + 1) * apt <= atlasCount then apt
    else if texIdx * apt <= atlasCount then atlasCount - texIdx * apt
    else 0
  }

  /** Textures 0 .. t-1 together load atlas indices 0 .. min(t * apt, atlasCount) - 1. */
  lemma {:induction false} LoadedAtlasesPrefix(atlasCount: nat, apt: nat, t: nat)
    requires apt >= 1
    ensures var total := LoadedAtlases(tx => AtlasCount(atlasCount, apt, tx), t);
            total == if t * apt <= atlasCount then t * apt else atlasCount
  {
    if t > 0 {
      LoadedAtlasesPrefix(atlasCount, apt, t - 1);
      assert t * apt == (t - 1) * apt + apt;
    }
  }

  /** Every atlas is loaded: the per-texture counts add up to atlasCount. */
  lemma AtlasCountsSum(atlasCount: nat, apt: nat)
    requires apt >= 1
    ensures LoadedAtlases(tx => AtlasCount(atlasCount, apt, tx), TextureCount(atlasCount, apt)) == atlasCount
  {
    var tc := TextureCount(atlasCount, apt);
    LoadedAtlasesPrefix(atlasCount, apt, tc);
  }

  /**
   * The count as written agrees with the intended one on every texture
   * except the last one when atlasCount is a multiple of atlasesPerTex.
   */
  lemma AtlasCountAsWrittenDiffers(atlasCount: nat, apt: nat, t: nat)
    requires apt >= 1 && t < TextureCount(atlasCount, apt)
    ensures AtlasCountAsWritten(atlasCount, apt, t) != AtlasCount(atlasCount, apt, t) <==>
            atlasCount % apt == 0 && t == TextureCount(atlasCount, apt) - 1
  {
    var tc := TextureCount(atlasCount, apt);
    MulMonotone(tc - 1, t, apt);
    assert t * apt < atlasCount;
    if (t + 1) * apt < atlasCount {
      if t == tc - 1 { assert false; }
    } else if (t + 1) * apt == atlasCount {
      DivModUnique(atlasCount, apt, t + 1, 0);
      if tc > t + 1 { MulMonotone(tc - 1, t + 1, apt); }
      if tc < t + 1 { MulMonotone(t, tc, apt); }
    } else {
      assert (t + 1) * apt == t * apt + apt;
      DivModUnique(atlasCount, apt, t, atlasCount - t * apt);
    }
  }

  /**
   * Texture.load: the global indices of the atlases texture texIdx creates,
   * atlasesPerTex * texIdx + i for each i below its atlas count.
   */
  method TextureAtlases(atlasCount: nat, apt: nat, texIdx: nat) returns (ids: seq<nat>)
    requires apt >= 1
    ensures |ids| == AtlasCount(atlasCount, apt, texIdx)
    ensures forall i :: 0 <= i < |ids| ==> ids[i] == apt * texIdx + i
    ensures forall i :: 0 <= i < |ids| ==> ids[i] < atlasCount && ids[i] / apt == texIdx && ids[i] % apt == i
  {
    var n := AtlasCount(atlasCount, apt, texIdx);
    ids := [];
    var i := 0;
    while i < n
      invariant 0 <= i <= n
      invariant |ids| == i
      invariant forall j :: 0 <= j < i ==> ids[j] == apt * texIdx + j
    {
      ids := ids + [apt * texIdx + i];
      i := i + 1;
    }
    forall j | 0 <= j < |ids|
      ensures ids[j] < atlasCount && ids[j] / apt == texIdx && ids[j] % apt == j
    {
      DivModUnique(ids[j], apt, texIdx, j);
      assert apt * texIdx == texIdx * apt;
    }
  }

  /** The number of cells in each atlas, from the manifest's cell_sizes. */
  function Lengths(cellSizes: seq<seq<Pair>>): (ls: seq<nat>)
    ensures |ls| == |cellSizes| && forall i :: 0 <= i < |cellSizes| ==> ls[i] == |cellSizes[i]|
  {
    seq(|cellSizes|, i requires 0 <= i < |cellSizes| => |cellSizes[i]|)
  }

  /** Atlas a holds the flat cell index idx: the cells of the atlases before a number at most idx. */
  predicate Holds(lengths: seq<nat>, a: nat, idx: nat)
  {
    a < |lengths| && Prefix(lengths, a) <= idx < Prefix(lengths, a + 1)
  }

  /** At most one atlas holds each cell index. */
  lemma HoldsUnique(lengths: seq<nat>, a1: nat, a2: nat, idx: nat)
    requires Holds(lengths, a1, idx) && Holds(lengths, a2, idx)
    ensures a1 == a2
  {
    if a1 < a2 {
      PrefixMonotone(lengths, a1 + 1, a2);
    } else if a2 < a1 {
      PrefixMonotone(lengths, a2 + 1, a1);
    }
  }

  /**
   * Cell.getIndexOfAtlas: accumulates atlas sizes until they exceed idx and
   * returns that atlas; past the last cell it returns the number of atlases.
   */
  method IndexOfAtlas(lengths: seq<nat>, idx: nat) returns (a: nat)
    ensures a <= |lengths|
    ensures a < |lengths| ==> Holds(lengths, a, idx)
    ensures a == |lengths| <==> idx >= Sum(lengths)
  {
    var i := 0;
    var j := 0;
    while j < |lengths|
      invariant 0 <= j <= |lengths|
      invariant i == Prefix(lengths, j) && i <= idx
    {
      PrefixStep(lengths, j);
      i := i + lengths[j];
      if i > idx {
        assert lengths[..|lengths|] == lengths;
        PrefixMonotone(lengths, j + 1, |lengths|);
        return j;
      }
      j := j + 1;
    }
    assert lengths[..|lengths|] == lengths;
    return j;
  }

  /**
   * Cell.getIndexInAtlas: idx less the cells of the atlases before its own;
   * for a cell index inside the data this is its position in its atlas.
   */
  method IndexInAtlas(lengths: seq<nat>, idx: nat) returns (k: int)
    ensures idx < Sum(lengths) ==>
              exists a: nat :: Holds(lengths, a, idx) && k == idx - Prefix(lengths, a) && 0 <= k < lengths[a]
    ensures idx >= Sum(lengths) ==> k == idx - Sum(lengths)
  {
    var atlasIdx := IndexOfAtlas(lengths, idx);
    var i := 0;
    var j := 0;
    while j < atlasIdx
      invariant 0 <= j <= atlasIdx
      invariant i == Prefix(lengths, j)
    {
      PrefixStep(lengths, j);
      i := i + lengths[j];
      j := j + 1;
    }
    assert lengths[..|lengths|] == lengths;
    if atlasIdx < |lengths| {
      PrefixStep(lengths, atlasIdx);
    }
    return idx - i;
  }

  /** Cell.getIndexOfDrawCall / getIndexInDrawCall with `elements` cells per draw call. */
  function DrawCallOf(idx: nat, elements: nat): (d: nat)
    requires elements >= 1
    ensures d * elements <= idx && idx - d * elements < elements
  {
    idx / elements
  }

  function IndexInDrawCall(idx: nat, elements: nat): (i: nat)
    requires elements >= 1
    ensures i < elements
  {
    idx % elements
  }

  /** The draw call and the index in it recover the cell index, and determine it uniquely. */
  lemma DrawCallRoundTrip(idx: nat, elements: nat, d: nat, i: nat)
    requires elements >= 1
    ensures DrawCallOf(idx, elements) * elements + IndexInDrawCall(idx, elements) == idx
    ensures i < elements && d * elements + i == idx ==>
              d == DrawCallOf(idx, elements) && i == IndexInDrawCall(idx, elements)
  {
    if i < elements && d * elements + i == idx {
      DivModUnique(idx, elements, d, i);
    }
  }

  /** A cell as Data.addCells creates it (its world position is not modelled). */
  datatype CellRecord = CellRecord(idx: nat, atlas: nat, inAtlas: nat, texIdx: nat,
                                   dx: nat, dy: nat, w: nat, h: nat)

  /** Cell idx is in atlas a at position idx - prefix, with that entry's size and offset. */
  predicate WellPlaced(c: CellRecord, idx: nat, cellSizes: seq<seq<Pair>>, atlasPositions: seq<seq<Pair>>,
                       apt: nat, atlasSize: nat, textureSize: nat)
    requires |atlasPositions| == |cellSizes|
    requires forall i :: 0 <= i < |cellSizes| ==> |atlasPositions[i]| == |cellSizes[i]|
    requires apt >= 1 && textureSize >= 1
  {
    var lengths := Lengths(cellSizes);
    c.idx == idx && Holds(lengths, c.atlas, idx) &&
    c.inAtlas == idx - Prefix(lengths, c.atlas) && c.inAtlas < lengths[c.atlas] &&
    c.texIdx == c.atlas / apt &&
    c.w == cellSizes[c.atlas][c.inAtlas].a && c.h == cellSizes[c.atlas][c.inAtlas].b &&
    c.dx == atlasPositions[c.atlas][c.inAtlas].a + AtlasOffset(c.atlas, atlasSize, textureSize).x &&
    c.dy == atlasPositions[c.atlas][c.inAtlas].b + AtlasOffset(c.atlas, atlasSize, textureSize).y
  }

  /**
   * Data.addCells: walks the atlases and the cells within each, numbering
   * the cells 0, 1, ... in atlas-major order; each cell's atlas is the one
   * holding its number, with its size, offset and texture index.
   */
  method AddCells(cellSizes: seq<seq<Pair>>, atlasPositions: seq<seq<Pair>>,
                  apt: nat, atlasSize: nat, textureSize: nat)
    returns (cells: seq<CellRecord>)
    requires |atlasPositions| == |cellSizes|
    requires forall i :: 0 <= i < |cellSizes| ==> |atlasPositions[i]| == |cellSizes[i]|
    requires apt >= 1 && textureSize >= 1
    ensures |cells| == Sum(Lengths(cellSizes))
    ensures forall k :: 0 <= k < |cells| ==>
              WellPlaced(cells[k], k, cellSizes, atlasPositions, apt, atlasSize, textureSize)
  {
    ghost var lengths := Lengths(cellSizes);
    cells := [];
    var idx := 0;
    var i := 0;
    while i < |cellSizes|
      invariant 0 <= i <= |cellSizes|
      invariant idx == |cells| == Prefix(lengths, i)
      invariant forall k :: 0 <= k < |cells| ==>
                  WellPlaced(cells[k], k, cellSizes, atlasPositions, apt, atlasSize, textureSize)
    {
      PrefixStep(lengths, i);
      var j := 0;
      while j < |cellSizes[i]|
        invariant 0 <= j <= |cellSizes[i]|
        invariant idx == |cells| == Prefix(lengths, i) + j
        invariant forall k :: 0 <= k < |cells| ==>
                    WellPlaced(cells[k], k, cellSizes, atlasPositions, apt, atlasSize, textureSize)
      {
        var texIdx := i / apt;
        var atlasPos := atlasPositions[i][j];
        var atlasOffset := AtlasOffset(i, atlasSize, textureSize);
        var size := cellSizes[i][j];
        var c := CellRecord(idx, i, j, texIdx, atlasPos.a + atlasOffset.x, atlasPos.b + atlasOffset.y,
                            size.a, size.b);
        assert WellPlaced(c, idx, cellSizes, atlasPositions, apt, atlasSize, textureSize);
        cells := cells + [c];
        idx := idx + 1;
        j := j + 1;
      }
      i := i + 1;
    }
    assert lengths[..|lengths|] == lengths;
  }
}
