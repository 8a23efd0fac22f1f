/**
 * The index arithmetic of the second viewer, assets/js/tsne.js: the sizes
 * Config derives from the WebGL limits, the cell range of each atlas and
 * texture, a cell's position inside its atlas, the `grid` layout, the
 * letterboxed size of a cell and the layout selector. Its LOD pool is
 * LodPool.Lod with the empty-pool guard; its bounding box is
 * Bounds.BoundingBox.UpdateParentElseIf.
 */
module AssetsViewer {
  import opened IntMath
  import opened GridLayout
  import opened Results

  // ---------------------------------------------------------------------
  // Config
  // ---------------------------------------------------------------------

  /** config.size.cell and config.size.atlas, in pixels. */
  const CellSize: nat := 32
  const AtlasSize: nat := 2048

  /** Cells on one side of an atlas: 2048 / 32. */
  const AtlasSide: nat := 64

  datatype Sizes = Sizes(atlasesPerTex: real, cellsPerAtlas: real, cellsPerTex: real,
                         cellsPerDrawCall: real)

  function MinReal(a: real, b: real): real { if a <= b then a else b }

  /**
   * The derived sizes of Config for a texture side of `texture` pixels and
   * the limits `textureCount` (textures per draw) and `indexedElements`.
   * One texture is held back for the LOD texture, hence textureCount - 1.
   */
  function DerivedSizes(texture: nat, textureCount: nat, indexedElements: nat): (s: Sizes)
    ensures s.cellsPerAtlas == 4096.0
    ensures s.cellsPerTex == s.cellsPerAtlas * s.atlasesPerTex
    ensures s.cellsPerDrawCall <= indexedElements as real
    ensures s.cellsPerDrawCall <= (textureCount as real - 1.0) * s.cellsPerTex
    ensures s.cellsPerDrawCall == indexedElements as real ||
            s.cellsPerDrawCall == (textureCount as real - 1.0) * s.cellsPerTex
  {
    var ratio := texture as real / AtlasSize as real;
    var atlasesPerTex := ratio * ratio;
    var side := AtlasSize as real / CellSize as real;
    var cellsPerAtlas := side * side;
    var cellsPerTex := cellsPerAtlas * atlasesPerTex;
    Sizes(atlasesPerTex, cellsPerAtlas, cellsPerTex,
          MinReal(indexedElements as real, (textureCount as real - 1.0) * cellsPerTex))
  }

  /** A texture side of k atlases holds k * k atlases and 4096 * k * k cells. */
  lemma DerivedSizesWhole(k: nat, textureCount: nat, indexedElements: nat)
    ensures var s := DerivedSizes(AtlasSize * k, textureCount, indexedElements);
            s.atlasesPerTex == (k * k) as real && s.cellsPerTex == (4096 * k * k) as real
  {
    var s := DerivedSizes(AtlasSize * k, textureCount, indexedElements);
    assert (AtlasSize * k) as real / AtlasSize as real == k as real;
    assert s.atlasesPerTex == k as real * k as real;
  }

  // ---------------------------------------------------------------------
  // Cell ranges of atlases and textures
  // ---------------------------------------------------------------------

  /** A `{start, end}` pair; the cells start .. end - 1 (none when end <= start). */
  datatype Range = Range(start: nat, end: nat)

  predicate InRange(i: nat, r: Range) { r.start <= i < r.end }

  /** Texture.getAtlasCellIndices: the cells of atlas atlasIdx among cellCount cells. */
  function AtlasCellIndices(atlasIdx: nat, cellsPerAtlas: nat, cellCount: nat): (r: Range)
    ensures r.start == cellsPerAtlas * atlasIdx
    ensures r.end <= cellCount && r.end <= r.start + cellsPerAtlas
  {
    var end := cellsPerAtlas * (atlasIdx + 1);
    Range(cellsPerAtlas * atlasIdx, if end <= cellCount then end else cellCount)
  }

  /** Atlas a holds exactly the cells whose number divided by cellsPerAtlas is a. */
  lemma AtlasRangeMembers(i: nat, a: nat, cellsPerAtlas: nat, cellCount: nat)
    requires cellsPerAtlas >= 1
    ensures InRange(i, AtlasCellIndices(a, cellsPerAtlas, cellCount)) <==>
            i < cellCount && i / cellsPerAtlas == a
  {
    var r := AtlasCellIndices(a, cellsPerAtlas, cellCount);
    if InRange(i, r) {
      assert cellsPerAtlas * (a + 1) == cellsPerAtlas * a + cellsPerAtlas;
      DivModUnique(i, cellsPerAtlas, a, i - cellsPerAtlas * a);
    }
    if i < cellCount && i / cellsPerAtlas == a {
      assert i == a * cellsPerAtlas + i % cellsPerAtlas;
      assert cellsPerAtlas * (a + 1) == cellsPerAtlas * a + cellsPerAtlas;
    }
  }

  /** Two atlases share no cell, and every cell lies in the atlas its number selects. */
  lemma AtlasRangesPartition(i: nat, a: nat, b: nat, cellsPerAtlas: nat, cellCount: nat)
    requires cellsPerAtlas >= 1
    ensures (InRange(i, AtlasCellIndices(a, cellsPerAtlas, cellCount)) &&
             InRange(i, AtlasCellIndices(b, cellsPerAtlas, cellCount))) ==> a == b
    ensures i < cellCount ==> InRange(i, AtlasCellIndices(i / cellsPerAtlas, cellsPerAtlas, cellCount))
  {
    AtlasRangeMembers(i, a, cellsPerAtlas, cellCount);
    AtlasRangeMembers(i, b, cellsPerAtlas, cellCount);
    AtlasRangeMembers(i, i / cellsPerAtlas, cellsPerAtlas, cellCount);
  }

  /** An Atlas as Texture.load creates it: its global index and its cell range. */
  datatype AtlasRef = AtlasRef(idx: nat, cells: Range)

  /**
   * Texture.load as written: the i-th atlas of texture texIdx is given the
   * cells of atlas i. Its range starts at the local index's block, so from
   * the second texture on it starts before the atlas's own cells.
   */
  function AtlasOfTextureAsWritten(texIdx: nat, i: nat, atlasesPerTex: nat, cellsPerAtlas: nat,
                                   cellCount: nat): (a: AtlasRef)
    ensures a.idx == atlasesPerTex * texIdx + i
    ensures a.cells.start == cellsPerAtlas * i && a.cells.end <= cellCount
    ensures texIdx >= 1 && atlasesPerTex >= 1 && cellsPerAtlas >= 1 ==> a.cells.start < cellsPerAtlas * a.idx
  {
    LocalBlockBeforeGlobal(texIdx, i, atlasesPerTex, cellsPerAtlas);
    AtlasRef(atlasesPerTex * texIdx + i, AtlasCellIndices(i, cellsPerAtlas, cellCount))
  }

  /** The block of local index i lies before the block of global index atlasesPerTex * texIdx + i. */
  lemma LocalBlockBeforeGlobal(texIdx: nat, i: nat, atlasesPerTex: nat, cellsPerAtlas: nat)
    ensures texIdx >= 1 && atlasesPerTex >= 1 && cellsPerAtlas >= 1 ==>
              cellsPerAtlas * i < cellsPerAtlas * (atlasesPerTex * texIdx + i)
  {
    if texIdx >= 1 && atlasesPerTex >= 1 && cellsPerAtlas >= 1 {
      MulMonotone(atlasesPerTex * texIdx, 1, cellsPerAtlas);
      assert cellsPerAtlas * (atlasesPerTex * texIdx + i) == (atlasesPerTex * texIdx) * cellsPerAtlas + cellsPerAtlas * i;
    }
  }

  /**
   * With 4 atlases per texture and 20000 cells, the first atlas of texture 1
   * (atlas 4) is given cells 0 .. 4095, the cells of atlas 0, and not cell
   * 16384, which atlas-4.jpg holds.
   */
  lemma LocalAtlasIndexRepeatsCells()
    ensures var a := AtlasOfTextureAsWritten(1, 0, 4, 4096, 20000);
            a.idx == 4 && InRange(0, a.cells) && !InRange(16384, a.cells) &&
            a.cells == AtlasOfTextureAsWritten(0, 0, 4, 4096, 20000).cells
  {
  }

  /** Texture.load, corrected: the i-th atlas of texture texIdx gets the cells of its global index. */
  function AtlasOfTexture(texIdx: nat, i: nat, atlasesPerTex: nat, cellsPerAtlas: nat,
                          cellCount: nat): (a: AtlasRef)
  {
    var g := atlasesPerTex * texIdx + i;
    AtlasRef(g, AtlasCellIndices(g, cellsPerAtlas, cellCount))
  }

  /**
   * Each atlas of a texture holds exactly the cells of its global atlas
   * index, and two atlases of different slots never share a cell.
   */
  lemma AtlasOfTextureCells(c: nat, t: nat, i: nat, t': nat, i': nat,
                            atlasesPerTex: nat, cellsPerAtlas: nat, cellCount: nat)
    requires cellsPerAtlas >= 1 && i < atlasesPerTex && i' < atlasesPerTex
    ensures var a := AtlasOfTexture(t, i, atlasesPerTex, cellsPerAtlas, cellCount);
            InRange(c, a.cells) <==> c < cellCount && c / cellsPerAtlas == a.idx
    ensures (t, i) != (t', i') ==>
              !(InRange(c, AtlasOfTexture(t, i, atlasesPerTex, cellsPerAtlas, cellCount).cells) &&
                InRange(c, AtlasOfTexture(t', i', atlasesPerTex, cellsPerAtlas, cellCount).cells))
  {
    var g, g' := atlasesPerTex * t + i, atlasesPerTex * t' + i';
    AtlasRangeMembers(c, g, cellsPerAtlas, cellCount);
    AtlasRangesPartition(c, g, g', cellsPerAtlas, cellCount);
    if g == g' {
      DivModUnique(g, atlasesPerTex, t, i);
      DivModUnique(g, atlasesPerTex, t', i');
    }
  }

  /** The loop of Texture.load (corrected): one atlas per slot 0 .. atlasCount - 1. */
  method TextureLoad(texIdx: nat, atlasCount: nat, atlasesPerTex: nat, cellsPerAtlas: nat,
                     cellCount: nat) returns (atlases: seq<AtlasRef>)
    ensures |atlases| == atlasCount
    ensures forall i :: 0 <= i < atlasCount ==>
              atlases[i] == AtlasOfTexture(texIdx, i, atlasesPerTex, cellsPerAtlas, cellCount)
  {
    atlases := [];
    var i := 0;
    while i < atlasCount
      invariant i <= atlasCount && |atlases| == i
      invariant forall j :: 0 <= j < i ==>
                  atlases[j] == AtlasOfTexture(texIdx, j, atlasesPerTex, cellsPerAtlas, cellCount)
    {
      var g := atlasesPerTex * texIdx + i;
      atlases := atlases + [AtlasRef(g, AtlasCellIndices(g, cellsPerAtlas, cellCount))];
      i := i + 1;
    }
  }

  /**
   * Data.getTextureCellIndices with cellsPerTex cells per texture: the same
   * arithmetic as Texture.getAtlasCellIndices, with a texture as the block.
   */
  function TextureCellIndices(texIdx: nat, cellsPerTex: nat, cellCount: nat): (r: Range)
    ensures r.start == cellsPerTex * texIdx
    ensures r.end <= cellCount && r.end <= r.start + cellsPerTex
  {
    AtlasCellIndices(texIdx, cellsPerTex, cellCount)
  }

  /**
   * With cellsPerTex = cellsPerAtlas * atlasesPerTex, a texture's range is
   * the union of the ranges of its atlasesPerTex atlases.
   */
  lemma TextureRangeIsItsAtlases(c: nat, t: nat, atlasesPerTex: nat, cellsPerAtlas: nat,
                                 cellCount: nat)
    requires cellsPerAtlas >= 1 && atlasesPerTex >= 1
    ensures InRange(c, TextureCellIndices(t, cellsPerAtlas * atlasesPerTex, cellCount)) <==>
            exists i :: 0 <= i < atlasesPerTex &&
              InRange(c, AtlasOfTexture(t, i, atlasesPerTex, cellsPerAtlas, cellCount).cells)
  {
    var cpt := cellsPerAtlas * atlasesPerTex;
    AtlasRangeMembers(c, t, cpt, cellCount);
    assert TextureCellIndices(t, cpt, cellCount) == AtlasCellIndices(t, cpt, cellCount);
    var a := c / cellsPerAtlas;
    NestedDiv(c, cellsPerAtlas, atlasesPerTex);
    if InRange(c, TextureCellIndices(t, cpt, cellCount)) {
      var i := a % atlasesPerTex;
      assert a == atlasesPerTex * t + i;
      AtlasOfTextureCells(c, t, i, t, i, atlasesPerTex, cellsPerAtlas, cellCount);
    }
    if exists i :: 0 <= i < atlasesPerTex &&
         InRange(c, AtlasOfTexture(t, i, atlasesPerTex, cellsPerAtlas, cellCount).cells) {
      var i :| 0 <= i < atlasesPerTex &&
               InRange(c, AtlasOfTexture(t, i, atlasesPerTex, cellsPerAtlas, cellCount).cells);
      AtlasOfTextureCells(c, t, i, t, i, atlasesPerTex, cellsPerAtlas, cellCount);
      DivModUnique(a, atlasesPerTex, t, i);
    }
  }

  /** Dividing by p * q is dividing by p and then by q. */
  lemma NestedDiv(c: nat, p: nat, q: nat)
    requires p >= 1 && q >= 1
    ensures c / (p * q) == (c / p) / q
  {
    var a := c / p;
    var t, i := a / q, a % q;
    assert c == (t * q + i) * p + c % p;
    assert (t * q + i) * p + c % p == t * (p * q) + (i * p + c % p);
    assert i * p + c % p < p * q by {
      MulMonotone(q - 1, i, p);
      assert (q - 1) * p + p == p * q;
    }
    DivModUnique(c, p * q, t, i * p + c % p);
  }

  // ---------------------------------------------------------------------
  // Position of a cell in its atlas
  // ---------------------------------------------------------------------

  datatype Pos = Pos(x: nat, y: nat)

  /**
   * Cell.getPosInAtlas on an atlas of side x side cells of `cell` pixels:
   * idxInAtlas = idx mod side², laid out row-major.
   */
  function PosInAtlas(idx: nat, side: nat, cell: nat): (p: Pos)
    requires side >= 1
    ensures cell > 0 ==> p.x % cell == 0 && p.y % cell == 0
    ensures p.x + cell <= side * cell && p.y + cell <= side * cell
  {
    var inAtlas := idx % (side * side);
    var g := GridCell(inAtlas, side);
    assert g.y < side by {
      if g.y >= side { MulMonotone(g.y, side, side); }
    }
    MulMonotone(side - 1, g.x, cell);
    MulMonotone(side - 1, g.y, cell);
    assert (side - 1) * cell + cell == side * cell;
    assert cell > 0 ==> (g.x * cell) % cell == 0 && (g.y * cell) % cell == 0 by {
      if cell > 0 {
        DivModUnique(g.x * cell, cell, g.x, 0);
        DivModUnique(g.y * cell, cell, g.y, 0);
      }
    }
    Pos(g.x * cell, g.y * cell)
  }

  /** Two cells get the same position in an atlas exactly when their indices in the atlas agree. */
  lemma PosInAtlasInjective(i: nat, j: nat, side: nat, cell: nat)
    requires side >= 1 && cell >= 1
    ensures PosInAtlas(i, side, cell) == PosInAtlas(j, side, cell) <==>
            i % (side * side) == j % (side * side)
  {
    var gi, gj := GridCell(i % (side * side), side), GridCell(j % (side * side), side);
    if PosInAtlas(i, side, cell) == PosInAtlas(j, side, cell) {
      MulCancel(gi.x, gj.x, cell);
      MulCancel(gi.y, gj.y, cell);
      GridCellInjective(i % (side * side), j % (side * side), side);
    }
  }

  // ---------------------------------------------------------------------
  // The grid layout of getLayouts
  // ---------------------------------------------------------------------

  /** The grid spacing: config.size.cell * 0.7. */
  const GridScalar: real := 22.4

  /**
   * The `grid` entry of Cell.getLayouts for cell idx of cellCount: column
   * idx mod perSide and row idx div perSide with perSide = ceil(sqrt(cellCount)),
   * spaced by GridScalar and shifted so the grid is centred on the origin.
   */
  function GridPosition(idx: nat, cellCount: nat): (p: (real, real))
    requires idx < cellCount
    ensures var center := GridScalar * CeilSqrt(cellCount) as real / 2.0;
            -center <= p.0 <= center - GridScalar && -center <= p.1 <= center - GridScalar
  {
    var perSide := CeilSqrt(cellCount);
    GridCellInRange(idx, cellCount);
    assert GridCell(idx, perSide).x as real <= perSide as real - 1.0;
    assert GridCell(idx, perSide).y as real <= perSide as real - 1.0;
    var center := GridScalar * perSide as real / 2.0;
    ((idx % perSide) as real * GridScalar - center, (idx / perSide) as real * GridScalar - center)
  }

  /** No two cells share a grid position. */
  lemma GridPositionsDistinct(i: nat, j: nat, cellCount: nat)
    requires i < cellCount && j < cellCount
    ensures i != j ==> GridPosition(i, cellCount) != GridPosition(j, cellCount)
  {
    var n := CeilSqrt(cellCount);
    GridCellInRange(i, cellCount);
    var gi := GridCell(i, n);
    if i != j && GridPosition(i, cellCount) == GridPosition(j, cellCount) {
      var gj := GridCell(j, n);
      assert gi.x as real * GridScalar == gj.x as real * GridScalar;
      assert gi.y as real * GridScalar == gj.y as real * GridScalar;
      GridCellInjective(i, j, n);
    }
  }

  // ---------------------------------------------------------------------
  // Cell.getSize
  // ---------------------------------------------------------------------

  /** Math.ceil on a real. */
  function Ceil(r: real): (c: int)
    ensures r <= c as real < r + 1.0
  {
    -((-r).Floor)
  }

  datatype Size = Size(w: real, h: real, topPad: int, leftPad: int)

  /**
   * Cell.getSize for an image of w x h pixels: the longer side fills the
   * 32-pixel cell and the shorter one is padded on both sides.
   */
  function GetSize(w: nat, h: nat): (s: Size)
    ensures w == h ==> s == Size(32.0, 32.0, 0, 0)
    ensures w > h ==>
              s.w == 32.0 && s.leftPad == 0 && s.h * w as real == 32.0 * h as real &&
              s.h < 32.0 && (32.0 - s.h) / 2.0 <= s.topPad as real < (32.0 - s.h) / 2.0 + 1.0
    ensures h > w ==>
              s.h == 32.0 && s.topPad == 0 && s.w * h as real == 32.0 * w as real &&
              s.w < 32.0 && (32.0 - s.w) / 2.0 <= s.leftPad as real < (32.0 - s.w) / 2.0 + 1.0
  {
    var cell := CellSize as real;
    if w == h then Size(cell, cell, 0, 0)
    else if w > h then
      var f := Shorter(w, h);
      Size(cell, f.0, f.1, 0)
    else
      var f := Shorter(h, w);
      Size(f.0, cell, 0, f.1)
  }

  /**
   * The shorter side of an image whose longer side fills the cell, and the
   * pad before it: Math.ceil of (long - short) / long * cell / 2.
   */
  function Shorter(long: nat, short: nat): (r: (real, int))
    requires short < long
    ensures r.0 * long as real == 32.0 * short as real && r.0 < 32.0
    ensures (32.0 - r.0) / 2.0 <= r.1 as real < (32.0 - r.0) / 2.0 + 1.0
  {
    var cell := CellSize as real;
    Letterbox(long as real, short as real, cell);
    (short as real / long as real * cell, Ceil(((long - short) as real / long as real) * cell / 2.0))
  }

  /**
   * The shorter side scaled to a cell whose longer side fills it keeps the
   * image's proportion, is shorter than the cell, and the pad on each side is
   * half of what remains.
   */
  lemma Letterbox(long: real, short: real, cell: real)
    requires 0.0 <= short < long && cell > 0.0
    ensures (short / long * cell) * long == cell * short
    ensures short / long * cell < cell
    ensures ((long - short) / long) * cell / 2.0 == (cell - short / long * cell) / 2.0
  {
    var side, r := short / long * cell, (long - short) / long;
    assert side * long == cell * short;
    assert cell * short < cell * long;
    RealLess(side, cell, long);
    assert r * long == long - short;
    assert (cell - side) * long == (r * cell) * long;
    RealCancel(cell - side, r * cell, long);
    calc == {
      ((long - short) / long) * cell / 2.0;
      r * cell / 2.0;
      (cell - side) / 2.0;
      (cell - short / long * cell) / 2.0;
    }
  }

  lemma RealCancel(a: real, b: real, c: real)
    requires c > 0.0 && a * c == b * c
    ensures a == b
  {
  }

  lemma RealLess(a: real, b: real, c: real)
    requires c > 0.0 && a * c < b * c
    ensures a < b
  {
  }

  // ---------------------------------------------------------------------
  // Layout.setOptions
  // ---------------------------------------------------------------------

  /** config.layout.preferences, most preferred first. */
  const Preferences: seq<string> := ["grid", "umap_2d", "tsne_3d", "tsne_2d"]

  /** JavaScript truthiness of `this.selected`: null and the empty string are false. */
  predicate Truthy(s: Option<string>) { s.Some? && s.value != "" }

  /** The first of prefs that occurs in options. */
  function FirstPresent(prefs: seq<string>, options: seq<string>): (r: Option<string>)
    ensures r.Some? ==> r.value in prefs && r.value in options
    ensures r.None? ==> forall k :: 0 <= k < |prefs| ==> prefs[k] !in options
  {
    if prefs == [] then None
    else if prefs[0] in options then Some(prefs[0])
    else FirstPresent(prefs[1..], options)
  }

  /**
   * FirstPresent finds a preference exactly when one is offered, and what it
   * finds is offered and preceded by no offered preference.
   */
  lemma {:induction false} FirstPresentSpec(prefs: seq<string>, options: seq<string>)
    ensures var r := FirstPresent(prefs, options);
            (r.Some? <==> exists k :: 0 <= k < |prefs| && prefs[k] in options) &&
            (r.Some? ==>
               r.value in options &&
               exists k :: 0 <= k < |prefs| && prefs[k] == r.value &&
                 forall j :: 0 <= j < k ==> prefs[j] !in options)
  {
    if prefs == [] {
    } else if prefs[0] in options {
    } else {
      var tail := prefs[1..];
      FirstPresentSpec(tail, options);
      var r := FirstPresent(tail, options);
      if r.Some? {
        var k :| 0 <= k < |tail| && tail[k] == r.value &&
                 forall j :: 0 <= j < k ==> tail[j] !in options;
        assert prefs[k + 1] == r.value;
        forall j | 0 <= j < k + 1
          ensures prefs[j] !in options
        {
          if j > 0 { assert prefs[j] == tail[j - 1]; }
        }
      }
      if exists k :: 0 <= k < |prefs| && prefs[k] in options {
        var k :| 0 <= k < |prefs| && prefs[k] in options;
        assert k > 0 && tail[k - 1] in options;
      }
    }
  }

  lemma {:induction false} FirstPresentSnoc(prefs: seq<string>, k: nat, options: seq<string>)
    requires k < |prefs|
    ensures FirstPresent(prefs[..k + 1], options) ==
            if FirstPresent(prefs[..k], options).Some? then FirstPresent(prefs[..k], options)
            else if prefs[k] in options then Some(prefs[k]) else None
    decreases k
  {
    if k > 0 {
      var tail := prefs[1..];
      assert prefs[..k + 1][1..] == tail[..k];
      assert prefs[..k][1..] == tail[..k - 1];
      FirstPresentSnoc(tail, k - 1, options);
    }
  }

  /**
   * Whatever layouts the data offers, 'grid' is appended to them and is a
   * preference, so a preference is always found and it is one of the options.
   */
  lemma SelectionAlwaysOffered(given: seq<string>, prefs: seq<string>)
    requires "grid" in prefs
    ensures var r := FirstPresent(prefs, given + ["grid"]);
            r.Some? && r.value in given + ["grid"]
  {
    var k :| 0 <= k < |prefs| && prefs[k] == "grid";
    assert (given + ["grid"])[|given|] == "grid";
    FirstPresentSpec(prefs, given + ["grid"]);
  }

  /** The layout selector. */
  class Layout {
    var options: seq<string>
    var selected: Option<string>
    /** Whether the selector has been drawn. */
    var rendered: bool

    constructor ()
      ensures options == [] && selected == None && !rendered
    {
      options, selected, rendered := [], None, false;
    }

    /**
     * setOptions: the offered layouts plus 'grid'; a selection not yet made
     * becomes the most preferred offered layout; the selector is drawn when
     * there is a choice.
     */
    method SetOptions(given: seq<string>)
      modifies this
      ensures options == given + ["grid"]
      ensures Truthy(old(selected)) ==> selected == old(selected)
      ensures !Truthy(old(selected)) ==> selected == FirstPresent(Preferences, options)
      ensures !Truthy(old(selected)) ==> selected.Some? && selected.value in options
      ensures rendered == (old(rendered) || |options| > 1)
    {
      options := given + ["grid"];
      var preferences := Preferences;
      ghost var initial := selected;
      var i := 0;
      while i < |preferences|
        invariant i <= |preferences| && options == given + ["grid"] && rendered == old(rendered)
        invariant Truthy(initial) ==> selected == initial
        invariant !Truthy(initial) ==>
                    if FirstPresent(preferences[..i], options).Some?
                    then selected == FirstPresent(preferences[..i], options)
                    else !Truthy(selected) && selected == initial
      {
        FirstPresentSnoc(preferences, i, options);
        if preferences[i] in options && !Truthy(selected) {
          selected := Some(preferences[i]);
        }
        i := i + 1;
      }
      assert preferences[..i] == Preferences;
      SelectionAlwaysOffered(given, Preferences);
      var first := options[0];
      // the fallback to options[0]; 'grid' is always found first
      selected := if Truthy(selected) then selected else Some(first);
      if |options| > 1 {
        rendered := true;
      }
    }
  }
}
