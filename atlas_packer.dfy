/**
 * The atlas packer of pixplot/pixplot.py (get_atlas_data) and the per-atlas
 * regrouping of its output in get_manifest.
 *
 * The packer walks the images with a cursor (atlas index n, x, y) over
 * square atlases of atlas_size pixels.  A cell of width v continues the
 * current row when x + v fits; otherwise a new row cell_size lower is
 * opened when one more row fits below; otherwise the atlas is saved and the
 * cursor moves to (0, 0) of atlas n + 1.  One placement is recorded per
 * image, and the last atlas is saved after the loop.
 */
module AtlasPacker {
  import opened Results
  import opened PixplotImages

  /** One entry of atlas_positions.json: atlas index, offset in the atlas, lod-size width and height. */
  datatype Placement = Placement(idx: nat, x: nat, y: nat, w: nat, h: nat)

  /** The width v of an image's cell: cell_size for square cells, else the width at cell height. */
  function CellWidth(s: Size, cellSize: nat, squareCells: bool): (v: nat)
    requires s.h >= 1
    ensures !squareCells ==> v >= 1
  {
    if squareCells then cellSize else ResizeToHeight(s, cellSize)
  }

  /** Where the first image goes, from the cursor (0, 0) of atlas 0. */
  predicate Starts(b: Placement, vb: nat, atlasSize: nat, cellSize: nat)
  {
    if vb <= atlasSize then b.idx == 0 && b.x == 0 && b.y == 0
    else if 2 * cellSize <= atlasSize then b.idx == 0 && b.x == 0 && b.y == cellSize
    else b.idx == 1 && b.x == 0 && b.y == 0
  }

  /**
   * Where an image of width vb goes after an image of width va placed at a:
   * further along the same row when it fits, else at the start of the next
   * row when a row fits below, else at (0, 0) of the next atlas.
   */
  predicate Follows(a: Placement, va: nat, b: Placement, vb: nat, atlasSize: nat, cellSize: nat)
  {
    if a.x + va + vb <= atlasSize then b.idx == a.idx && b.y == a.y && b.x == a.x + va
    else if a.y + 2 * cellSize <= atlasSize then b.idx == a.idx && b.y == a.y + cellSize && b.x == 0
    else b.idx == a.idx + 1 && b.x == 0 && b.y == 0
  }

  /** Every placement after the first follows its predecessor. */
  predicate Chained(ps: seq<Placement>, vs: seq<nat>, atlasSize: nat, cellSize: nat)
    requires |ps| == |vs|
  {
    forall k :: 0 <= k < |ps| - 1 ==> Follows(ps[k], vs[k], ps[k + 1], vs[k + 1], atlasSize, cellSize)
  }

  /** The cell widths of a run of images. */
  function Widths(sizes: seq<Size>, cellSize: nat, squareCells: bool): (vs: seq<nat>)
    requires forall k :: 0 <= k < |sizes| ==> sizes[k].h >= 1
    ensures |vs| == |sizes|
    ensures forall k :: 0 <= k < |sizes| ==> vs[k] == CellWidth(sizes[k], cellSize, squareCells)
  {
    seq(|sizes|, k requires 0 <= k < |sizes| => CellWidth(sizes[k], cellSize, squareCells))
  }

  /** The lod-size dimensions of a run of images. */
  function LodSizes(sizes: seq<Size>, lodCellHeight: nat): (ls: seq<Size>)
    requires forall k :: 0 <= k < |sizes| ==> ResizeToMax(sizes[k], lodCellHeight).Ok?
    ensures |ls| == |sizes|
    ensures forall k :: 0 <= k < |sizes| ==> ls[k] == ResizeToMax(sizes[k], lodCellHeight).value
  {
    seq(|sizes|, k requires 0 <= k < |sizes| => ResizeToMax(sizes[k], lodCellHeight).value)
  }

  /**
   * get_atlas_data: returns the placements and the indices of the atlases
   * saved, in saving order.  Placements start at the origin, each follows
   * its predecessor, carry the lod-size dimensions, and stay inside the
   * atlas when every cell is at most atlas_size wide and tall; the atlases
   * saved are 0, 1, ..., up to the last placement's atlas.
   */
  method GetAtlasData(sizes: seq<Size>, atlasSize: nat, cellSize: nat, lodCellHeight: nat,
                      squareCells: bool)
    returns (positions: seq<Placement>, saved: seq<nat>)
    requires forall k :: 0 <= k < |sizes| ==> sizes[k].h >= 1
    requires forall k :: 0 <= k < |sizes| ==> ResizeToMax(sizes[k], lodCellHeight).Ok?
    requires squareCells ==> forall k :: 0 <= k < |sizes| ==> ResizeToMax(sizes[k], cellSize).Ok?
    ensures |positions| == |sizes|
    ensures |sizes| > 0 ==>
              Starts(positions[0], Widths(sizes, cellSize, squareCells)[0], atlasSize, cellSize)
    ensures Chained(positions, Widths(sizes, cellSize, squareCells), atlasSize, cellSize)
    ensures forall k :: 0 <= k < |sizes| ==>
              positions[k].w == LodSizes(sizes, lodCellHeight)[k].w &&
              positions[k].h == LodSizes(sizes, lodCellHeight)[k].h
    ensures |saved| == (if |sizes| == 0 then 1 else positions[|sizes| - 1].idx + 1)
    ensures forall k :: 0 <= k < |saved| ==> saved[k] == k
    ensures var vs := Widths(sizes, cellSize, squareCells);
            cellSize <= atlasSize && (forall k :: 0 <= k < |sizes| ==> vs[k] <= atlasSize) ==>
              forall k :: 0 <= k < |sizes| ==>
                positions[k].x + vs[k] <= atlasSize && positions[k].y + cellSize <= atlasSize
  {
    ghost var vs := Widths(sizes, cellSize, squareCells);
    ghost var lods := LodSizes(sizes, lodCellHeight);
    var n, x, y := 0, 0, 0;
    positions, saved := [], [];
    var i := 0;
    while i < |sizes|
      invariant 0 <= i <= |sizes|
      invariant |positions| == i
      invariant |saved| == n && forall k :: 0 <= k < n ==> saved[k] == k
      invariant i == 0 ==> n == 0 && x == 0 && y == 0
      invariant i > 0 ==> positions[i - 1].idx == n && positions[i - 1].y == y &&
                          x == positions[i - 1].x + vs[i - 1]
      invariant i > 0 ==> Starts(positions[0], vs[0], atlasSize, cellSize)
      invariant forall k :: 0 <= k < i - 1 ==>
                  Follows(positions[k], vs[k], positions[k + 1], vs[k + 1], atlasSize, cellSize)
      invariant forall k :: 0 <= k < i ==> positions[k].w == lods[k].w && positions[k].h == lods[k].h
    {
      var s := sizes[i];
      var v := if squareCells then cellSize else ResizeToHeight(s, cellSize);
      assert v == vs[i];
      var appendable := false;
      if x + v <= atlasSize {
        appendable := true;
      } else if y + 2 * cellSize <= atlasSize {
        y := y + cellSize;
        x := 0;
        appendable := true;
      }
      if !appendable {
        saved := saved + [n];
        n := n + 1;
        x := 0;
        y := 0;
      }
      var lod := ResizeToMax(s, lodCellHeight).value;
      assert lod == lods[i];
      ghost var prev := positions;
      var p := Placement(n, x, y, lod.w, lod.h);
      assert i == 0 ==> Starts(p, vs[0], atlasSize, cellSize);
      assert i > 0 ==> Follows(prev[i - 1], vs[i - 1], p, vs[i], atlasSize, cellSize);
      positions := positions + [p];
      assert forall k :: 0 <= k < i ==> positions[k] == prev[k];
      x := x + v;
      i := i + 1;
    }
    saved := saved + [n];
    if |sizes| > 0 && cellSize <= atlasSize && forall k :: 0 <= k < |sizes| ==> vs[k] <= atlasSize {
      ChainedInBounds(positions, vs, atlasSize, cellSize);
    }
  }

  /**
   * With every cell at most atlas_size wide and cell_size at most
   * atlas_size, a run of placements that starts at the origin and follows
   * the packing rule stays inside its atlas: a new row is opened only when
   * it fits below.
   */
  lemma {:induction false} ChainedInBounds(ps: seq<Placement>, vs: seq<nat>, atlasSize: nat, cellSize: nat)
    requires |ps| == |vs| >= 1 && Chained(ps, vs, atlasSize, cellSize)
    requires Starts(ps[0], vs[0], atlasSize, cellSize)
    requires cellSize <= atlasSize && forall k :: 0 <= k < |vs| ==> vs[k] <= atlasSize
    ensures forall k :: 0 <= k < |ps| ==> ps[k].x + vs[k] <= atlasSize && ps[k].y + cellSize <= atlasSize
  {
    var m := |ps| - 1;
    if m > 0 {
      ChainedPrefix(ps, vs, atlasSize, cellSize, m);
      ChainedInBounds(ps[..m], vs[..m], atlasSize, cellSize);
      assert Follows(ps[m - 1], vs[m - 1], ps[m], vs[m], atlasSize, cellSize);
      assert ps[..m][m - 1] == ps[m - 1] && vs[..m][m - 1] == vs[m - 1];
    }
  }

  /**
   * Placements that start at atlas 0 and follow one another never overlap:
   * of two cells in the same atlas, the earlier lies in a row wholly above
   * the later one, or in the same row wholly to its left.  Atlas indices
   * never decrease.
   */
  lemma {:induction false} ChainedDisjoint(ps: seq<Placement>, vs: seq<nat>, atlasSize: nat, cellSize: nat)
    requires |ps| == |vs| && Chained(ps, vs, atlasSize, cellSize)
    ensures forall k, j :: 0 <= k < j < |ps| ==> ps[k].idx <= ps[j].idx
    ensures forall k, j :: 0 <= k < j < |ps| && ps[k].idx == ps[j].idx ==>
              ps[k].y + cellSize <= ps[j].y || (ps[k].y == ps[j].y && ps[k].x + vs[k] <= ps[j].x)
  {
    if |ps| > 1 {
      var m := |ps| - 1;
      ChainedPrefix(ps, vs, atlasSize, cellSize, m);
      ChainedDisjoint(ps[..m], vs[..m], atlasSize, cellSize);
      assert Follows(ps[m - 1], vs[m - 1], ps[m], vs[m], atlasSize, cellSize);
      forall k | 0 <= k < m
        ensures ps[k].idx <= ps[m].idx
        ensures ps[k].idx == ps[m].idx ==>
                  ps[k].y + cellSize <= ps[m].y || (ps[k].y == ps[m].y && ps[k].x + vs[k] <= ps[m].x)
      {
        if k < m - 1 {
          assert ps[..m][k] == ps[k] && ps[..m][m - 1] == ps[m - 1] && vs[..m][k] == vs[k];
        }
      }
    }
  }

  /** The set of atlas indices occurring in the placements (get_manifest's atlas_ids). */
  function AtlasIds(ps: seq<Placement>): set<nat>
  {
    set k | 0 <= k < |ps| :: ps[k].idx
  }

  /** The indices 0 .. m-1. */
  function Below(m: nat): (s: set<nat>)
    ensures forall k: int :: k in s <==> 0 <= k < m
  {
    if m == 0 then {} else Below(m - 1) + {m - 1}
  }

  lemma {:induction false} BelowSize(m: nat)
    ensures |Below(m)| == m
  {
    if m > 0 {
      BelowSize(m - 1);
      assert m - 1 !in Below(m - 1);
    }
  }

  lemma AtlasIdsSnoc(ps: seq<Placement>)
    requires |ps| >= 1
    ensures AtlasIds(ps) == AtlasIds(ps[..|ps| - 1]) + {ps[|ps| - 1].idx}
  {
    var m := |ps| - 1;
    forall i | i in AtlasIds(ps) ensures i in AtlasIds(ps[..m]) + {ps[m].idx} {
      var k :| 0 <= k < |ps| && ps[k].idx == i;
      if k < m { assert ps[..m][k] == ps[k]; }
    }
    forall i | i in AtlasIds(ps[..m]) ensures i in AtlasIds(ps) {
      var k :| 0 <= k < m && ps[..m][k].idx == i;
      assert ps[k] == ps[..m][k];
    }
  }

  lemma ChainedPrefix(ps: seq<Placement>, vs: seq<nat>, atlasSize: nat, cellSize: nat, m: nat)
    requires |ps| == |vs| && m <= |ps| && Chained(ps, vs, atlasSize, cellSize)
    ensures Chained(ps[..m], vs[..m], atlasSize, cellSize)
  {
    forall k | 0 <= k < m - 1
      ensures Follows(ps[..m][k], vs[..m][k], ps[..m][k + 1], vs[..m][k + 1], atlasSize, cellSize)
    {
      assert ps[..m][k] == ps[k] && ps[..m][k + 1] == ps[k + 1];
      assert vs[..m][k] == vs[k] && vs[..m][k + 1] == vs[k + 1];
    }
  }

  /**
   * When the first placement is in atlas 0, the atlas indices used are
   * exactly 0 .. last, so there are as many of them as atlases saved.
   */
  lemma {:induction false} ChainedIdsContiguous(ps: seq<Placement>, vs: seq<nat>, atlasSize: nat, cellSize: nat)
    requires |ps| == |vs| >= 1 && Chained(ps, vs, atlasSize, cellSize) && ps[0].idx == 0
    ensures AtlasIds(ps) == Below(ps[|ps| - 1].idx + 1)
    ensures |AtlasIds(ps)| == ps[|ps| - 1].idx + 1
  {
    var m := |ps| - 1;
    if m > 0 {
      ChainedPrefix(ps, vs, atlasSize, cellSize, m);
      ChainedIdsContiguous(ps[..m], vs[..m], atlasSize, cellSize);
      assert Follows(ps[m - 1], vs[m - 1], ps[m], vs[m], atlasSize, cellSize);
      AtlasIdsSnoc(ps);
      assert ps[..m][m - 1] == ps[m - 1];
      assert ps[m].idx == ps[m - 1].idx || ps[m].idx == ps[m - 1].idx + 1;
    } else {
      assert AtlasIds(ps) == {0} by {
        assert ps[0].idx in AtlasIds(ps);
      }
    }
    BelowSize(ps[m].idx + 1);
  }

  /**
   * Images that pass filter_images' oblong test give cells no wider than
   * the atlas, so the packer keeps them inside it and its first image
   * lands at the origin of atlas 0.
   */
  lemma FilteredCellsFit(sizes: seq<Size>, atlasSize: nat, cellSize: nat, squareCells: bool)
    requires atlasSize >= 1 && cellSize <= atlasSize
    requires forall k :: 0 <= k < |sizes| ==>
               sizes[k].h >= 1 && sizes[k].w * cellSize <= atlasSize * sizes[k].h
    ensures forall k :: 0 <= k < |sizes| ==> Widths(sizes, cellSize, squareCells)[k] <= atlasSize
  {
    forall k | 0 <= k < |sizes| ensures Widths(sizes, cellSize, squareCells)[k] <= atlasSize {
      if !squareCells {
        ResizeToHeightFits(sizes[k], cellSize, atlasSize);
      }
    }
  }

  /** A cell's size and position lists as get_manifest builds them. */
  datatype Pair = Pair(a: nat, b: nat)

  /** The placements in atlas k, in their original order. */
  function Group(ps: seq<Placement>, k: nat): seq<Placement>
  {
    if |ps| == 0 then []
    else Group(ps[..|ps| - 1], k) + (if ps[|ps| - 1].idx == k then [ps[|ps| - 1]] else [])
  }

  function SizesOf(ps: seq<Placement>): seq<Pair>
  {
    seq(|ps|, i requires 0 <= i < |ps| => Pair(ps[i].w, ps[i].h))
  }

  function PositionsOf(ps: seq<Placement>): seq<Pair>
  {
    seq(|ps|, i requires 0 <= i < |ps| => Pair(ps[i].x, ps[i].y))
  }

  datatype Manifest = Manifest(cellSizes: seq<seq<Pair>>, positions: seq<seq<Pair>>, atlasCount: nat)

  datatype ManifestError = IndexError

  /**
   * The grouping step of get_manifest: one size list and one position list
   * per distinct atlas index, filled in record order.  A record whose atlas
   * index is not below the number of distinct indices is an IndexError.
   */
  method GroupByAtlas(records: seq<Placement>) returns (r: Result<Manifest, ManifestError>)
    ensures r.Err? <==> exists k :: 0 <= k < |records| && records[k].idx >= |AtlasIds(records)|
    ensures r.Ok? ==>
              r.value.atlasCount == |AtlasIds(records)| &&
              |r.value.cellSizes| == |r.value.positions| == r.value.atlasCount &&
              forall k :: 0 <= k < r.value.atlasCount ==>
                r.value.cellSizes[k] == SizesOf(Group(records, k)) &&
                r.value.positions[k] == PositionsOf(Group(records, k))
  {
    var count := |AtlasIds(records)|;
    var sizes: seq<seq<Pair>> := seq(count, _ => []);
    var pos: seq<seq<Pair>> := seq(count, _ => []);
    var i := 0;
    while i < |records|
      invariant 0 <= i <= |records|
      invariant |sizes| == |pos| == count
      invariant forall j :: 0 <= j < i ==> records[j].idx < count
      invariant forall k :: 0 <= k < count ==>
                  sizes[k] == SizesOf(Group(records[..i], k)) && pos[k] == PositionsOf(Group(records[..i], k))
    {
      var rec := records[i];
      if rec.idx >= count {
        return Err(IndexError);
      }
      assert records[..i + 1][..i] == records[..i];
      sizes := sizes[rec.idx := sizes[rec.idx] + [Pair(rec.w, rec.h)]];
      pos := pos[rec.idx := pos[rec.idx] + [Pair(rec.x, rec.y)]];
      i := i + 1;
    }
    assert records[..i] == records;
    return Ok(Manifest(sizes, pos, count));
  }

  /** The sum of the group sizes for atlases 0 .. m-1. */
  function GroupTotal(ps: seq<Placement>, m: nat): nat
  {
    if m == 0 then 0 else GroupTotal(ps, m - 1) + |Group(ps, m - 1)|
  }

  lemma {:induction false} GroupTotalSnoc(ps: seq<Placement>, p: Placement, m: nat)
    ensures GroupTotal(ps + [p], m) == GroupTotal(ps, m) + (if p.idx < m then 1 else 0)
  {
    if m > 0 {
      GroupTotalSnoc(ps, p, m - 1);
      assert (ps + [p])[..|ps|] == ps;
    }
  }

  /** When every index is below m, the groups 0 .. m-1 hold all the records between them. */
  lemma {:induction false} GroupsCoverRecords(ps: seq<Placement>, m: nat)
    requires forall k :: 0 <= k < |ps| ==> ps[k].idx < m
    ensures GroupTotal(ps, m) == |ps|
  {
    if |ps| == 0 {
      GroupTotalEmpty(m);
    } else {
      var init := ps[..|ps| - 1];
      GroupsCoverRecords(init, m);
      GroupTotalSnoc(init, ps[|ps| - 1], m);
      assert init + [ps[|ps| - 1]] == ps;
    }
  }

  lemma {:induction false} GroupTotalEmpty(m: nat)
    ensures GroupTotal([], m) == 0
  {
    if m > 0 {
      GroupTotalEmpty(m - 1);
    }
  }

  /**
   * The packer's output always groups without error when its first cell
   * fits: there is one group per saved atlas, and the groups hold every
   * placement between them.
   */
  lemma PackedOutputGroups(ps: seq<Placement>, vs: seq<nat>, atlasSize: nat, cellSize: nat)
    requires |ps| == |vs| >= 1 && Chained(ps, vs, atlasSize, cellSize) && ps[0].idx == 0
    ensures forall k :: 0 <= k < |ps| ==> ps[k].idx < |AtlasIds(ps)|
    ensures |AtlasIds(ps)| == ps[|ps| - 1].idx + 1
    ensures GroupTotal(ps, |AtlasIds(ps)|) == |ps|
  {
    ChainedIdsContiguous(ps, vs, atlasSize, cellSize);
    forall k | 0 <= k < |ps| ensures ps[k].idx < |AtlasIds(ps)| {
      assert ps[k].idx in AtlasIds(ps);
    }
    GroupsCoverRecords(ps, |AtlasIds(ps)|);
  }
}
