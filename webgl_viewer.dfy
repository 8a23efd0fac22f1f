/**
 * The index arithmetic of the third viewer, assets/js/tsne-webgl.js: how
 * many images one mesh (draw call) holds, where image i sits in its atlas,
 * which mesh and which texture slot of that mesh it uses, the image store
 * setImageData fills, the mesh ranges of buildGeometry, the texture lookup
 * tree of the fragment shader and the readiness test of startIfReady.
 */
module WebglViewer {
  import opened IntMath
  import opened Strings

  /** sizes.row = sizes.col = 2048 / 32 images on a side of an atlas. */
  const AtlasRow: nat := 64

  /** imagesPerAtlas = sizes.row * sizes.col. */
  const ImagesPerAtlas: nat := 4096

  /** 2**16 vertices per mesh, one vertex per image (point primitives). */
  const VertexBound: nat := 65536

  // ---------------------------------------------------------------------
  // Images per mesh and the index of an image
  // ---------------------------------------------------------------------

  /**
   * getImagesPerMesh for a GPU with textureCount texture units: the vertex
   * bound or the texture bound, whichever is smaller. A mesh always holds
   * whole atlases.
   */
  function ImagesPerMesh(textureCount: nat): (m: nat)
    ensures m <= VertexBound && m <= textureCount * ImagesPerAtlas
    ensures m == VertexBound || m == textureCount * ImagesPerAtlas
    ensures m % ImagesPerAtlas == 0
    ensures textureCount >= 1 ==> m >= ImagesPerAtlas
  {
    var textureBound := textureCount * ImagesPerAtlas;
    DivModUnique(textureBound, ImagesPerAtlas, textureCount, 0);
    if VertexBound <= textureBound then VertexBound else textureBound
  }

  /** Atlas index, row and column of an image. */
  datatype AtlasData = AtlasData(idx: nat, row: nat, col: nat)

  /** getImageAtlasData: image i is at row, column of atlas idx, row-major. */
  function ImageAtlasData(i: nat): (a: AtlasData)
    ensures a.row < AtlasRow && a.col < AtlasRow
    ensures a.idx * ImagesPerAtlas + a.row * AtlasRow + a.col == i
  {
    var indexInAtlas := i % ImagesPerAtlas;
    AtlasData(i / ImagesPerAtlas, indexInAtlas / AtlasRow, indexInAtlas % AtlasRow)
  }

  /** The image a cell of an atlas holds. */
  function ImageIndex(a: AtlasData): nat
  {
    a.idx * ImagesPerAtlas + a.row * AtlasRow + a.col
  }

  /** getImageAtlasData and ImageIndex are inverse on cells inside an atlas. */
  lemma AtlasDataRoundTrip(i: nat, a: AtlasData)
    requires a.row < AtlasRow && a.col < AtlasRow
    ensures ImageIndex(ImageAtlasData(i)) == i
    ensures ImageAtlasData(ImageIndex(a)) == a
  {
    var j := ImageIndex(a);
    var inAtlas := a.row * AtlasRow + a.col;
    assert inAtlas < ImagesPerAtlas by {
      MulMonotone(AtlasRow - 1, a.row, AtlasRow);
    }
    DivModUnique(j, ImagesPerAtlas, a.idx, inAtlas);
    DivModUnique(inAtlas, AtlasRow, a.row, a.col);
  }

  /** getImageMeshData: the mesh an image is drawn by; the mesh and the image's place in it give the image back. */
  function MeshIdx(i: nat, imagesPerMesh: nat): (m: nat)
    requires imagesPerMesh >= 1
    ensures m * imagesPerMesh + i % imagesPerMesh == i
  {
    i / imagesPerMesh
  }

  /** getImageTextureData: the slot, among the textures of its mesh, of an image's atlas. */
  function TextureIdx(i: nat, imagesPerMesh: nat): (t: nat)
    requires imagesPerMesh >= 1
    ensures t * ImagesPerAtlas <= i % imagesPerMesh < (t + 1) * ImagesPerAtlas
  {
    (i % imagesPerMesh) / ImagesPerAtlas
  }

  /** The mesh index and the position in the mesh give back the image, and are the only pair that does. */
  lemma MeshRoundTrip(i: nat, imagesPerMesh: nat, m: nat, r: nat)
    requires imagesPerMesh >= 1
    ensures MeshIdx(i, imagesPerMesh) * imagesPerMesh + i % imagesPerMesh == i
    ensures r < imagesPerMesh && m * imagesPerMesh + r == i ==>
              m == MeshIdx(i, imagesPerMesh) && r == i % imagesPerMesh
  {
    if r < imagesPerMesh && m * imagesPerMesh + r == i {
      DivModUnique(i, imagesPerMesh, m, r);
    }
  }

  /** buildGeometry's startMaterialIdx and (unclamped) endMaterialIdx of mesh m. */
  function StartMaterial(m: nat, imagesPerMesh: nat): nat
  {
    (imagesPerMesh * m) / ImagesPerAtlas
  }

  function EndMaterial(m: nat, imagesPerMesh: nat): int
  {
    (imagesPerMesh * (m + 1)) / ImagesPerAtlas - 1
  }

  /**
   * The texture slot of an image within its mesh, added to the mesh's first
   * material, is the image's atlas; so the slot is one of the textures
   * getShaderMaterial hands the mesh, of which there are imagesPerMesh / 4096.
   */
  lemma TextureSlotIsAtlas(i: nat, textureCount: nat)
    requires textureCount >= 1
    ensures var ipm := ImagesPerMesh(textureCount);
            var m := MeshIdx(i, ipm);
            StartMaterial(m, ipm) + TextureIdx(i, ipm) == ImageAtlasData(i).idx &&
            TextureIdx(i, ipm) < ipm / ImagesPerAtlas &&
            EndMaterial(m, ipm) - StartMaterial(m, ipm) + 1 == ipm / ImagesPerAtlas
  {
    var ipm := ImagesPerMesh(textureCount);
    var q := ipm / ImagesPerAtlas;
    assert ipm == q * ImagesPerAtlas;
    var m, r := i / ipm, i % ipm;
    var t, s := r / ImagesPerAtlas, r % ImagesPerAtlas;
    assert t < q by {
      if t >= q { MulMonotone(t, q, ImagesPerAtlas); }
    }
    assert i == (m * q + t) * ImagesPerAtlas + s by {
      assert i == m * ipm + r;
      assert m * ipm == (m * q) * ImagesPerAtlas;
    }
    DivModUnique(i, ImagesPerAtlas, m * q + t, s);
    assert ipm * m == (q * m) * ImagesPerAtlas;
    DivModUnique(ipm * m, ImagesPerAtlas, q * m, 0);
    assert ipm * (m + 1) == (q * m + q) * ImagesPerAtlas;
    DivModUnique(ipm * (m + 1), ImagesPerAtlas, q * m + q, 0);
  }

  // ---------------------------------------------------------------------
  // parseImage and setImageData
  // ---------------------------------------------------------------------

  /** One entry of data.positions: [name, x, y, width, height]. */
  datatype RawImage = RawImage(name: string, x: real, y: real, width: int, height: int)

  datatype Parsed = Parsed(name: string, x: real, y: real, width: int, height: int,
                           xOffset: real, yOffset: real)

  /** parseImage: the image is centred in its 32-pixel cell. */
  function ParseImage(img: RawImage): (p: Parsed)
    ensures p.name == img.name && p.x == img.x && p.y == img.y
    ensures p.width == img.width && p.height == img.height
    ensures p.xOffset + p.width as real + p.xOffset == 32.0
    ensures p.yOffset + p.height as real + p.yOffset == 32.0
  {
    Parsed(img.name, img.x, img.y, img.width, img.height,
           (32.0 - img.width as real) / 2.0, (32.0 - img.height as real) / 2.0)
  }

  /** The parts of getImageData this model keeps (chart position and uv are left out). */
  datatype ImageData = ImageData(idx: nat, width: int, height: int, xOffset: real, yOffset: real,
                                 atlas: AtlasData, texture: nat, mesh: nat)

  /**
   * getImageData: the record of image idx locates it three ways: its mesh
   * holds idx, its texture slot covers idx's place in that mesh, and its
   * atlas cell is idx.
   */
  function GetImageData(img: Parsed, idx: nat, imagesPerMesh: nat): (d: ImageData)
    requires imagesPerMesh >= 1
    ensures d.idx == idx && d.width == img.width && d.height == img.height
    ensures d.mesh * imagesPerMesh <= idx && idx - d.mesh * imagesPerMesh < imagesPerMesh
    ensures d.texture * ImagesPerAtlas <= idx % imagesPerMesh < (d.texture + 1) * ImagesPerAtlas
    ensures d.atlas.row < AtlasRow && d.atlas.col < AtlasRow
    ensures d.atlas.idx * ImagesPerAtlas + d.atlas.row * AtlasRow + d.atlas.col == idx
  {
    ImageData(idx, img.width, img.height, img.xOffset, img.yOffset, ImageAtlasData(idx),
              TextureIdx(idx, imagesPerMesh), MeshIdx(idx, imagesPerMesh))
  }

  function Names(json: seq<RawImage>): (ns: seq<string>)
    ensures |ns| == |json| && forall k :: 0 <= k < |json| ==> ns[k] == json[k].name
  {
    seq(|json|, k requires 0 <= k < |json| => json[k].name)
  }

  lemma NamesSnoc(json: seq<RawImage>, k: nat)
    requires k < |json|
    ensures Names(json[..k + 1]) == Names(json[..k]) + [json[k].name]
  {
  }

  /** No image after position k of json (and before position `upTo`) has json[k]'s name. */
  predicate LastWithName(json: seq<RawImage>, k: nat, upTo: nat)
    requires k < upTo <= |json|
  {
    forall l :: k < l < upTo ==> json[l].name != json[k].name
  }

  /** The data of the image at position k, as setImageData computes it. */
  function DataAt(json: seq<RawImage>, k: nat, imagesPerMesh: nat): ImageData
    requires k < |json| && imagesPerMesh >= 1
  {
    GetImageData(ParseImage(json[k]), k, imagesPerMesh)
  }

  /** imageData after the first upTo images: each stored under its name, later ones replacing earlier. */
  function StoreData(m: map<string, ImageData>, json: seq<RawImage>, upTo: nat,
                     imagesPerMesh: nat): map<string, ImageData>
    requires upTo <= |json| && imagesPerMesh >= 1
  {
    if upTo == 0 then m
    else StoreData(m, json, upTo - 1, imagesPerMesh)[json[upTo - 1].name := DataAt(json, upTo - 1, imagesPerMesh)]
  }

  /** atlasImages after the first upTo images: each image also stored in the map of its atlas. */
  function StoreAtlas(a: map<nat, map<string, ImageData>>, json: seq<RawImage>, upTo: nat,
                      imagesPerMesh: nat): map<nat, map<string, ImageData>>
    requires upTo <= |json| && imagesPerMesh >= 1
  {
    if upTo == 0 then a
    else
      var prev := StoreAtlas(a, json, upTo - 1, imagesPerMesh);
      var d := DataAt(json, upTo - 1, imagesPerMesh);
      var inAtlas := if d.atlas.idx in prev then prev[d.atlas.idx] else map[];
      prev[d.atlas.idx := inAtlas[json[upTo - 1].name := d]]
  }

  /** imageData holds exactly the old names and the names of the images. */
  lemma {:induction false} StoreDataKeys(m: map<string, ImageData>, json: seq<RawImage>, upTo: nat,
                                         imagesPerMesh: nat)
    requires upTo <= |json| && imagesPerMesh >= 1
    ensures forall n :: n in StoreData(m, json, upTo, imagesPerMesh) <==> n in m || n in Names(json[..upTo])
  {
    if upTo > 0 {
      StoreDataKeys(m, json, upTo - 1, imagesPerMesh);
      NamesSnoc(json, upTo - 1);
    }
  }

  /** A name no image carries keeps its old data. */
  lemma {:induction false} StoreDataKeeps(m: map<string, ImageData>, json: seq<RawImage>, upTo: nat,
                                          imagesPerMesh: nat, n: string)
    requires upTo <= |json| && imagesPerMesh >= 1
    requires n in m && n !in Names(json[..upTo])
    ensures n in StoreData(m, json, upTo, imagesPerMesh) && StoreData(m, json, upTo, imagesPerMesh)[n] == m[n]
  {
    if upTo > 0 {
      NamesSnoc(json, upTo - 1);
      StoreDataKeeps(m, json, upTo - 1, imagesPerMesh, n);
    }
  }

  /** A name is bound to the data of the last image carrying it. */
  lemma {:induction false} StoreDataLast(m: map<string, ImageData>, json: seq<RawImage>, upTo: nat,
                                         imagesPerMesh: nat, k: nat)
    requires upTo <= |json| && imagesPerMesh >= 1
    requires k < upTo && LastWithName(json, k, upTo)
    ensures json[k].name in StoreData(m, json, upTo, imagesPerMesh)
    ensures StoreData(m, json, upTo, imagesPerMesh)[json[k].name] == DataAt(json, k, imagesPerMesh)
  {
    if k < upTo - 1 {
      StoreDataLast(m, json, upTo - 1, imagesPerMesh, k);
    }
  }

  /** The last image of each name is stored, under that name, in the map of its atlas. */
  lemma {:induction false} StoreAtlasLast(a: map<nat, map<string, ImageData>>, json: seq<RawImage>,
                                          upTo: nat, imagesPerMesh: nat, k: nat)
    requires upTo <= |json| && imagesPerMesh >= 1
    requires k < upTo && LastWithName(json, k, upTo)
    ensures var r := StoreAtlas(a, json, upTo, imagesPerMesh);
            var d := DataAt(json, k, imagesPerMesh);
            d.atlas.idx in r && json[k].name in r[d.atlas.idx] && r[d.atlas.idx][json[k].name] == d
  {
    if k < upTo - 1 {
      StoreAtlasLast(a, json, upTo - 1, imagesPerMesh, k);
    }
  }

  /** The global stores imageData, imageDataKeys and atlasImages. */
  class ImageStore {
    var imageData: map<string, ImageData>
    var imageDataKeys: seq<string>
    var atlasImages: map<nat, map<string, ImageData>>
    const imagesPerMesh: nat

    constructor (textureCount: nat)
      requires textureCount >= 1
      ensures imageData == map[] && imageDataKeys == [] && atlasImages == map[]
      ensures imagesPerMesh == ImagesPerMesh(textureCount) && imagesPerMesh >= 1
    {
      imageData, imageDataKeys, atlasImages := map[], [], map[];
      imagesPerMesh := ImagesPerMesh(textureCount);
    }

    /**
     * setImageData: every image's name is pushed onto imageDataKeys in input
     * order and its data stored under its name, in imageData and in the map
     * of its atlas (the StoreData and StoreAtlasLast lemmas say what that leaves).
     */
    method SetImageData(json: seq<RawImage>)
      requires imagesPerMesh >= 1
      modifies this
      ensures imageDataKeys == old(imageDataKeys) + Names(json)
      ensures imageData == StoreData(old(imageData), json, |json|, imagesPerMesh)
      ensures atlasImages == StoreAtlas(old(atlasImages), json, |json|, imagesPerMesh)
    {
      var idx := 0;
      while idx < |json|
        invariant idx <= |json|
        invariant imageDataKeys == old(imageDataKeys) + Names(json[..idx])
        invariant imageData == StoreData(old(imageData), json, idx, imagesPerMesh)
        invariant atlasImages == StoreAtlas(old(atlasImages), json, idx, imagesPerMesh)
      {
        NamesSnoc(json, idx);
        var img := ParseImage(json[idx]);
        imageDataKeys := imageDataKeys + [img.name];
        imageData := imageData[img.name := GetImageData(img, idx, imagesPerMesh)];
        var data := imageData[img.name];
        var inAtlas := if data.atlas.idx in atlasImages then atlasImages[data.atlas.idx] else map[];
        atlasImages := atlasImages[data.atlas.idx := inAtlas[img.name := data]];
        idx := idx + 1;
      }
      assert json[..idx] == json;
    }
  }

  // ---------------------------------------------------------------------
  // buildGeometry
  // ---------------------------------------------------------------------

  /** A mesh as buildGeometry makes it: its image range, texture slots and materials. */
  datatype Mesh = Mesh(imageStart: nat, imageEnd: nat, textureIndex: seq<nat>,
                       startMaterial: nat, endMaterial: int)

  function MeshEnd(i: nat, imagesPerMesh: nat, n: nat): nat
  {
    if (i + 1) * imagesPerMesh <= n then (i + 1) * imagesPerMesh else n
  }

  /** Mesh i of buildGeometry over the images `instances`, in imageData's key order. */
  function MeshAt(instances: seq<ImageData>, i: nat, imagesPerMesh: nat): Mesh
    requires i * imagesPerMesh <= |instances|
  {
    var start, end := i * imagesPerMesh, MeshEnd(i, imagesPerMesh, |instances|);
    var textures := seq<nat>(end - start, k requires 0 <= k < end - start => instances[start + k].texture);
    Mesh(start, end, textures, StartMaterial(i, imagesPerMesh), EndMaterial(i, imagesPerMesh))
  }

  /**
   * The ranges [imageStart, imageEnd) of the ceil(n / imagesPerMesh) meshes
   * partition 0 .. n - 1 in order: image j is in mesh j / imagesPerMesh and
   * in no other.
   */
  lemma MeshRangesPartition(j: nat, i: nat, imagesPerMesh: nat, n: nat)
    requires imagesPerMesh >= 1 && j < n
    ensures j / imagesPerMesh < CeilDiv(n, imagesPerMesh)
    ensures i * imagesPerMesh <= j < MeshEnd(i, imagesPerMesh, n) <==> i == j / imagesPerMesh
  {
    var m := j / imagesPerMesh;
    var c := CeilDiv(n, imagesPerMesh);
    assert m * imagesPerMesh <= j;
    if m >= c {
      MulMonotone(m, c, imagesPerMesh);
      assert false;
    }
    if i * imagesPerMesh <= j < MeshEnd(i, imagesPerMesh, n) {
      DivModUnique(j, imagesPerMesh, i, j - i * imagesPerMesh);
    }
    if i == m {
      assert j == m * imagesPerMesh + j % imagesPerMesh;
    }
  }

  /** Consecutive meshes meet: each starts where the previous one ends, and the last ends at n. */
  lemma MeshRangesContiguous(i: nat, imagesPerMesh: nat, n: nat)
    requires imagesPerMesh >= 1 && i < CeilDiv(n, imagesPerMesh)
    ensures i * imagesPerMesh < MeshEnd(i, imagesPerMesh, n)
    ensures i + 1 < CeilDiv(n, imagesPerMesh) ==> MeshEnd(i, imagesPerMesh, n) == (i + 1) * imagesPerMesh
    ensures i + 1 == CeilDiv(n, imagesPerMesh) ==> MeshEnd(i, imagesPerMesh, n) == n
  {
    var c := CeilDiv(n, imagesPerMesh);
    MulMonotone(c - 1, i, imagesPerMesh);
    if i + 1 < c {
      MulMonotone(c - 1, i + 1, imagesPerMesh);
    }
  }

  /**
   * buildGeometry: one mesh per group of imagesPerMesh images, each filling
   * its textureIndex buffer with an incrementing iterator.
   */
  method BuildGeometry(instances: seq<ImageData>, imagesPerMesh: nat) returns (meshes: seq<Mesh>)
    requires imagesPerMesh >= 1
    ensures |meshes| == CeilDiv(|instances|, imagesPerMesh)
    ensures forall i :: 0 <= i < |meshes| ==>
              i * imagesPerMesh <= |instances| && meshes[i] == MeshAt(instances, i, imagesPerMesh)
  {
    var n := |instances|;
    var meshCount := CeilDiv(n, imagesPerMesh);
    meshes := [];
    var i := 0;
    while i < meshCount
      invariant i <= meshCount && |meshes| == i
      invariant forall k :: 0 <= k < i ==>
                  k * imagesPerMesh <= n && meshes[k] == MeshAt(instances, k, imagesPerMesh)
    {
      MulMonotone(meshCount - 1, i, imagesPerMesh);
      var mesh := BuildMesh(instances, i, imagesPerMesh);
      meshes := meshes + [mesh];
      i := i + 1;
    }
  }

  /** One pass of buildGeometry's loop: mesh i, its textureIndex buffer filled image by image. */
  method BuildMesh(instances: seq<ImageData>, i: nat, imagesPerMesh: nat) returns (mesh: Mesh)
    requires i * imagesPerMesh <= |instances|
    ensures mesh == MeshAt(instances, i, imagesPerMesh)
  {
    var n := |instances|;
    var imageStart := i * imagesPerMesh;
    var imageEnd := if (i + 1) * imagesPerMesh <= n then (i + 1) * imagesPerMesh else n;
    var imageCount := imageEnd - imageStart;
    var textureIndex := new nat[imageCount];
    var textureIterator := 0;
    var j := imageStart;
    while j < imageEnd
      invariant imageStart <= j <= imageEnd && textureIterator == j - imageStart
      invariant forall k :: 0 <= k < textureIterator ==> textureIndex[k] == instances[imageStart + k].texture
    {
      textureIndex[textureIterator] := instances[j].texture;
      textureIterator := textureIterator + 1;
      j := j + 1;
    }
    var startMaterialIdx := (imagesPerMesh * i) / ImagesPerAtlas;
    var endMaterialIdx := (imagesPerMesh * (i + 1)) / ImagesPerAtlas - 1;
    mesh := Mesh(imageStart, imageEnd, textureIndex[..], startMaterialIdx, endMaterialIdx);
  }

  // ---------------------------------------------------------------------
  // getFragmentShader
  // ---------------------------------------------------------------------

  /** The shader code before and after the texture index getFrag writes. */
  const FragHead: string := "vec4 color = texture2D(textures["
  const FragTail: string := "], scaledUv );\n if (color.a < 0.5) { discard; }\n gl_FragColor = color;\n "

  /**
   * getFrag: the shader code sampling texture idx. The digits after
   * `textures[` read back as idx, and the code around them is fixed.
   */
  function Frag(idx: nat): (code: string)
    ensures var e := |FragHead| + |NatToString(idx)|;
            |code| == e + |FragTail| && code[..|FragHead|] == FragHead && ParseNat(code[|FragHead|..e]) == idx && code[e..] == FragTail
  {
    NumberReadBack(FragHead, idx, FragTail);
    FragHead + NatToString(idx) + FragTail
  }

  /** The `else if` branch for texture i. */
  function ElseIf(i: nat): string
  {
    "else if (textureIndex == " + NatToString(i) + ") { " + Frag(i) + " }\n "
  }

  /** The `else if` branches for the texture indices bs, in order. */
  function ElseIfs(bs: seq<nat>): string
  {
    if bs == [] then "" else ElseIfs(bs[..|bs| - 1]) + ElseIf(bs[|bs| - 1])
  }

  /** One more pass of the loop appends the branch of texture i. */
  lemma TreeTextStep(i: nat)
    requires i >= 1
    ensures TreeText(Indices(i + 1)) == TreeText(Indices(i)) + ElseIf(i)
  {
    var bs := Indices(i + 1)[1..];
    assert bs[..|bs| - 1] == Indices(i)[1..];
    assert bs[|bs| - 1] == i;
  }

  /** The lookup tree text with branches for the indices bs, the first being 0. */
  function TreeText(bs: seq<nat>): string
    requires |bs| >= 1
  {
    "if (textureIndex == 0) {" + Frag(0) + "}\n " + ElseIfs(bs[1..])
  }

  /** The texture indices 0 .. count - 1. */
  function Indices(count: nat): (s: seq<nat>)
    ensures |s| == count && forall k :: 0 <= k < count ==> s[k] == k
  {
    seq(count, k requires 0 <= k < count => k)
  }

  /** The branches getFragmentShader emits for nTextures textures, as written: 0, then 1 .. nTextures - 2. */
  function LookupTreeAsWritten(nTextures: int): seq<nat>
  {
    Indices(if nTextures - 1 >= 1 then nTextures - 1 else 1)
  }

  /** The branches it is evidently meant to emit: 0 .. nTextures - 1. */
  function LookupTree(nTextures: int): seq<nat>
  {
    Indices(if nTextures >= 1 then nTextures else 1)
  }

  /** One pass of getFragmentShader's loop: the `else if` branch of texture i. */
  method AddBranch(tree: string, branches: seq<nat>, i: nat) returns (tree': string, branches': seq<nat>)
    requires i >= 1 && branches == Indices(i) && tree == TreeText(branches)
    ensures branches' == Indices(i + 1) && tree' == TreeText(branches')
  {
    TreeTextStep(i);
    tree' := tree + ElseIf(i);
    branches' := branches + [i];
    assert branches' == Indices(i + 1);
  }

  /** getFragmentShader's loop as written (`i < nTextures - 1`). */
  method FragmentTreeAsWritten(nTextures: int) returns (tree: string, branches: seq<nat>)
    ensures branches == LookupTreeAsWritten(nTextures)
    ensures tree == TreeText(branches)
  {
    branches := [0];
    tree := "if (textureIndex == 0) {" + Frag(0) + "}\n ";
    var i := 1;
    while i < nTextures - 1
      invariant 1 <= i && (i <= nTextures - 1 || i == 1)
      invariant branches == Indices(i)
      invariant tree == TreeText(branches)
    {
      tree, branches := AddBranch(tree, branches, i);
      i := i + 1;
    }
  }

  /**
   * With 16 texture units a mesh holds 65536 images over 16 atlases; image
   * 61440 is in the 16th atlas, texture slot 15, for which the tree as
   * written has no branch.
   */
  lemma LastTextureHasNoBranch()
    ensures var ipm := ImagesPerMesh(16);
            var nTextures := EndMaterial(0, ipm) - StartMaterial(0, ipm) + 1;
            nTextures == 16 && MeshIdx(61440, ipm) == 0 && TextureIdx(61440, ipm) == 15 &&
            TextureIdx(61440, ipm) !in LookupTreeAsWritten(nTextures)
  {
    var ipm := ImagesPerMesh(16);
    assert ipm == 65536;
    var t := LookupTreeAsWritten(16);
    assert |t| == 15 && forall k :: 0 <= k < |t| ==> t[k] < 15;
  }

  /** getFragmentShader's loop, corrected to `i < nTextures`. */
  method FragmentTree(nTextures: int) returns (tree: string, branches: seq<nat>)
    ensures branches == LookupTree(nTextures)
    ensures tree == TreeText(branches)
  {
    branches := [0];
    tree := "if (textureIndex == 0) {" + Frag(0) + "}\n ";
    var i := 1;
    while i < nTextures
      invariant 1 <= i && (i <= nTextures || i == 1)
      invariant branches == Indices(i)
      invariant tree == TreeText(branches)
    {
      tree, branches := AddBranch(tree, branches, i);
      i := i + 1;
    }
  }

  /** With the corrected loop every image's texture slot has a branch in its mesh's shader. */
  lemma EveryTextureHasBranch(i: nat, textureCount: nat)
    requires textureCount >= 1
    ensures var ipm := ImagesPerMesh(textureCount);
            var m := MeshIdx(i, ipm);
            TextureIdx(i, ipm) in LookupTree(EndMaterial(m, ipm) - StartMaterial(m, ipm) + 1)
  {
    var ipm := ImagesPerMesh(textureCount);
    var m := MeshIdx(i, ipm);
    TextureSlotIsAtlas(i, textureCount);
    var t := LookupTree(EndMaterial(m, ipm) - StartMaterial(m, ipm) + 1);
    assert t[TextureIdx(i, ipm)] == TextureIdx(i, ipm);
  }

  // ---------------------------------------------------------------------
  // startIfReady
  // ---------------------------------------------------------------------

  /** The texture indices 0 .. count - 1 as a set. */
  function IndexSet(count: nat): set<nat>
  {
    set k | k in Indices(count)
  }

  lemma {:induction false} IndexSetCard(count: nat)
    ensures |IndexSet(count)| == count
  {
    if count > 0 {
      IndexSetCard(count - 1);
      assert IndexSet(count) == IndexSet(count - 1) + {count - 1} by {
        assert Indices(count)[count - 1] == count - 1;
        forall k | k in IndexSet(count)
          ensures k in IndexSet(count - 1) + {count - 1}
        {
          assert k < count;
          if k < count - 1 { assert Indices(count - 1)[k] == k; }
        }
        forall k | k in IndexSet(count - 1)
          ensures k in IndexSet(count)
        {
          assert Indices(count)[k] == k;
        }
      }
      assert count - 1 !in IndexSet(count - 1);
    }
  }

  lemma SubsetCard(a: set<nat>, b: set<nat>)
    requires a <= b
    ensures |a| <= |b|
  {
    assert b == a + (b - a);
  }

  /** Texture i of 0 .. count - 1 is loaded for every i exactly when count of them are. */
  lemma AllTexturesLoaded(loaded: set<nat>, count: nat)
    requires forall i :: i in loaded ==> i < count
    ensures |loaded| == count <==> forall i :: 0 <= i < count ==> i in loaded
  {
    var all := IndexSet(count);
    IndexSetCard(count);
    forall i | i in loaded
      ensures i in all
    {
      assert Indices(count)[i] == i;
    }
    if |loaded| == count {
      if exists i :: 0 <= i < count && i !in loaded {
        var i :| 0 <= i < count && i !in loaded;
        assert Indices(count)[i] == i;
        assert loaded <= all - {i};
        SubsetCard(loaded, all - {i});
        assert false;
      }
    }
    if forall i :: 0 <= i < count ==> i in loaded {
      assert all <= loaded;
      assert loaded == all;
    }
  }

  /** The loader state startIfReady reads, and how many times it has built the geometry. */
  class Loader {
    /** Indices assigned in textures['32'] (the array is sparse; filter skips holes). */
    var loadedTextures: set<nat>
    /** _.keys(imageData).length. */
    var imageCount: nat
    /** atlasCounts['32px']. */
    const atlasCount: nat
    var builds: nat

    ghost predicate Valid()
      reads this
    {
      forall i :: i in loadedTextures ==> i < atlasCount
    }

    /** Ready: every 32px atlas texture is in and there is image data. */
    predicate Ready()
      reads this
    {
      |loadedTextures| == atlasCount && imageCount > 0
    }

    constructor (atlasCount: nat, imageCount: nat)
      ensures Valid() && this.atlasCount == atlasCount && this.imageCount == imageCount
      ensures loadedTextures == {} && builds == 0
    {
      this.atlasCount, this.imageCount := atlasCount, imageCount;
      loadedTextures, builds := {}, 0;
    }

    /** startIfReady: build the geometry when ready, on every call that finds it ready. */
    method StartIfReady()
      requires Valid()
      modifies this
      ensures Valid() && loadedTextures == old(loadedTextures) && imageCount == old(imageCount)
      ensures builds == old(builds) + (if Ready() then 1 else 0)
      ensures Ready() <==> imageCount > 0 && forall i :: 0 <= i < atlasCount ==> i in loadedTextures
    {
      AllTexturesLoaded(loadedTextures, atlasCount);
      if |loadedTextures| == atlasCount && imageCount > 0 {
        builds := builds + 1;
      }
    }

    /** handleTexture: store texture i of the atlas files, then try to start. */
    method HandleTexture(i: nat)
      requires Valid() && i < atlasCount
      modifies this
      ensures Valid() && loadedTextures == old(loadedTextures) + {i} && imageCount == old(imageCount)
      ensures builds == old(builds) + (if Ready() then 1 else 0)
    {
      loadedTextures := loadedTextures + {i};
      StartIfReady();
    }
  }
}
