# PixPlot core, modelled in Dafny

PixPlot turns a folder of images into a browsable WebGL scatter plot. A
Python pipeline does three things:

- it filters the images, makes thumbnails and packs them into fixed-size square atlas images;
- it writes JSON manifests;
- it writes one 2-d position per image.

A JavaScript viewer then loads the atlases into GPU textures and draws one
point or quad per image. While the camera is close, a level-of-detail
(LOD) pool swaps larger thumbnails into a separate texture.

This project models the integer and sequence logic of that core. It covers:

- **Pipeline, `pixplot/pixplot.py`**:
  - the greedy row-filling atlas packer (`get_atlas_data`), with its placement bounds, non-overlap and atlas numbering;
  - the image filter, including its metadata pass;
  - the validation of the image list;
  - the row-major grid layout;
  - the per-atlas regrouping of the manifest;
  - the size arithmetic of the resize helpers, `get_path` and `clean_filename`.
- **Viewer index arithmetic** in three viewer generations (`pixplot/web/assets/js/tsne.js`, `assets/js/tsne.js`, `assets/js/tsne-webgl.js`):
  - atlas offsets inside a texture;
  - atlases per texture;
  - cell to atlas, texture, draw call and mesh;
  - the cell ranges of atlases and textures;
  - positions inside an atlas, the grid layout and letterbox padding.
- **The LOD slot pool** of both `tsne.js` files, as a class with the same fields. It is proved to keep free and assigned slots a partition of the slot set through every operation. The two files differ only in the guard against an empty free list; a flag selects which one runs.
- **Viewer state rules**: layout selection, the bounding-box accumulator, the WebGL viewer's image store, mesh ranges, the fragment-shader branch tree and the readiness test.
- **Pipeline helpers** in `utils/process_images.py`, `utils/parse_metadata.py`, `imageplot.py` and `utils/make_montage.py`:
  - list chunking;
  - the two file-stem functions and the ASCII filter;
  - the ImageMagick command builders;
  - thumbnail and atlas bookkeeping;
  - the metadata CSV grouper;
  - the position writer with its errored-image test;
  - the power-of-two extent search.

Modelling conventions:

- **Flavour**: code that works step by step is modelled as methods with loops, and objects that the source updates in place as classes. They are proved against pure specification functions, and the properties are lemmas about those functions.
- **Numbers**: Python's true division and JavaScript's numbers are modelled as exact rationals (`real`) or as integer div/mod where the operands are whole.
- **Outside the model**: the file system, subprocesses, hashing and percent-decoding enter as parameters.

Modules:

| file | module | models |
|---|---|---|
| results.dfy, int_math.dfy, strings.dfy, string_order.dfy | `Results`, `IntMath`, `Strings`, `StringOrder` | result type, division and square-root facts, decimal text, split/join, base names, Python's string order and `sorted` |
| chunking.dfy | `Chunking` | `subdivide` of utils/process_images.py and imageplot.py |
| grid_layout.dfy | `GridLayout` | `get_grid_projection` |
| pixplot_images.dfy | `PixplotImages` | `Image` resizing, `filter_images`, `get_image_paths`, `get_path`, `clean_filename` |
| atlas_packer.dfy | `AtlasPacker` | `get_atlas_data` and the grouping of `get_manifest` |
| bounds.dfy | `Bounds` | `updateParentBoundingBox` of both `tsne.js` files |
| pixplot_viewer.dfy | `PixplotViewer` | index arithmetic and `addCells` of pixplot/web/assets/js/tsne.js |
| lod_pool.dfy | `LodPool` | the `LOD` object of both `tsne.js` files |
| assets_viewer.dfy | `AssetsViewer` | `Config`, atlas and texture cell ranges, `getPosInAtlas`, grid layout, `getSize`, `Layout.setOptions` of assets/js/tsne.js |
| webgl_viewer.dfy | `WebglViewer` | assets/js/tsne-webgl.js |
| file_stems.dfy | `FileStems` | `get_filename`, `get_base_filename`, `get_ascii_chars`, the first-piece record name |
| process_images.dfy | `ProcessImages` | utils/process_images.py |
| parse_metadata.dfy | `ParseMetadata` | utils/parse_metadata.py |
| imageplot.dfy | `Imageplot` | imageplot.py |
| make_montage.dfy | `MakeMontage` | utils/make_montage.py |

## Model

| member | source | states |
|---|---|---|
| IntMath.CeilDiv | utils/process_images.py:307-308 | the least r with r*b >= a (math.ceil of a true division on whole numbers) |
| IntMath.CeilDivExact | utils/process_images.py:307-308 | when b divides a the ceiling is a / b exactly |
| IntMath.CeilSqrt | pixplot/pixplot.py:432 | ceil(sqrt(count)): n*n >= count and (n-1)*(n-1) < count |
| IntMath.Pow2Monotone | utils/make_montage.py:15-17 | 2 ** i never decreases as i grows |
| Strings.NatToString | utils/make_montage.py:10 | str(n) is non-empty text made only of the digits 0-9 |
| Strings.NatToStringRoundTrip | utils/make_montage.py:21 | decimal text reads back as the number it was written from |
| Strings.LastIndexOf | utils/process_images.py:441 | the search for the last occurrence of a character returns an index inside the text |
| Strings.LastIndexOfSpec | utils/process_images.py:441 | None exactly when the character does not occur, otherwise an occurrence with none after it |
| Strings.Split | utils/parse_metadata.py:68 | str.split on one character never returns an empty list and no piece holds the separator |
| Strings.SplitJoin | utils/parse_metadata.py:68 | '.'.join(s.split('.')) gives back s |
| Strings.BasenameSpec | utils/process_images.py:441 | os.path.basename: a '/'-free tail of the path, the whole path or what follows its last '/' |
| StringOrder.Insert | pixplot/pixplot.py:233 | insertion into a sorted list keeps it sorted and adds exactly that element (as multisets) |
| StringOrder.Sort | pixplot/pixplot.py:233 | sorted(paths) is sorted and a permutation of its input |
| Chunking.Chunks | utils/process_images.py:421-427 | the slices l[i:i+n] number ceil(len/n) and none is empty |
| Chunking.ChunkAt | utils/process_images.py:426-427 | slice k runs from k*n to min((k+1)*n, len) |
| Chunking.ChunksFlatten | utils/process_images.py:421-427 | concatenating the slices gives back the input |
| Chunking.ChunkFull | utils/process_images.py:421-427 | every slice but the last has exactly n items |
| Chunking.TruncToInt | utils/process_images.py:425 | int() on a number truncates toward zero: |int(x)| <= |x| < |int(x)| + 1 with the sign of x |
| Chunking.Subdivide | utils/process_images.py:421-427 | int(n) == 0 is range()'s ValueError, a negative step yields nothing, otherwise the slices of size int(n) |
| Imageplot.SubdivideSlices | imageplot.py:263-269 | imageplot's copy of subdivide: slice k runs from k*int(n) to (k+1)*int(n), cut at the end |
| GridLayout.GridCell | pixplot/pixplot.py:434-437 | image i goes to column i mod n and row i div n, with the column below n |
| GridLayout.GridCellInjective | pixplot/pixplot.py:434-437 | two images share a grid cell only when they are the same image |
| GridLayout.GridCellInRange | pixplot/pixplot.py:432-437 | with n = ceil(sqrt(count)) every image's row is below n as well |
| GridLayout.GridProjection | pixplot/pixplot.py:426-439 | the loop yields one cell per path, cell i being (i mod n, i div n), all distinct and inside [0,n)x[0,n) |
| PixplotImages.ScaleSide | pixplot/pixplot.py:590 | int(n*short/long) as the whole part of the exact ratio, and 0 exactly when n*short < long |
| PixplotImages.ResizeToMax | pixplot/pixplot.py:585-591 | both sides zero is the division by zero; otherwise it succeeds exactly when n >= 1 and the shorter side scales to at least 1 pixel (PIL refuses a zero side); the longer side then becomes n and the other int(n*short/long) |
| PixplotImages.ResizeToHeight | pixplot/pixplot.py:593-603 | the width is 1 when w/h*height < 1 and int(w/h*height) otherwise, so it is never below 1 |
| PixplotImages.ResizeToHeightFits | pixplot/pixplot.py:185-187 | an image that passes the oblong test gets a cell width no wider than the atlas |
| PixplotImages.Paths | pixplot/pixplot.py:188 | the paths of a run of images, one per image, in order |
| PixplotImages.SelectedPathsSpec | pixplot/pixplot.py:168-214 | filter_images' result is an order-preserving subsequence of the input paths, and a path is in it exactly when an image with that path is usable (loaded, non-zero sides, resizable, not oblong) and, with metadata, its cleaned name is in the metadata |
| PixplotImages.TwoPassFilter | pixplot/pixplot.py:171-214 | the streaming pass followed by the metadata pass selects the same paths as one pass with every test |
| PixplotImages.UsablePass | pixplot/pixplot.py:171-188 | the streaming loop returns the paths of the usable images in input order |
| PixplotImages.MetadataPass | pixplot/pixplot.py:214 | the final comprehension keeps exactly the paths whose cleaned name is among the metadata names, in order |
| PixplotImages.UsableIsSelectedWithoutMetadata | pixplot/pixplot.py:190 | without metadata the streaming pass is the whole result |
| PixplotImages.FilterImages | pixplot/pixplot.py:168-214 | with a metadata record reduced to its optional filename, filter_images fails exactly when metadata is given and a record lacks 'filename' (the KeyError); otherwise it returns the selected paths |
| PixplotImages.SelectedFits | pixplot/pixplot.py:175-187 | every kept image has a lod-size thumbnail and a cell width inside the atlas |
| PixplotImages.GetImagePaths | pixplot/pixplot.py:217-248 | each of no argument, no match and no more matches than clusters stops the run with its own error; otherwise the matches sorted, a permutation of the glob, more of them than clusters |
| PixplotImages.BasenameOfJoin | pixplot/pixplot.py:253 | joining a '/'-free name onto a directory leaves that name as the base name |
| PixplotImages.PathJoinAppend | pixplot/pixplot.py:467 | appending text to a joined path appends it to the last component |
| PixplotImages.GetPath | pixplot/pixplot.py:461-468 | for a filename not starting with '/', the path is the directory (out_dir, or out_dir joined with sub_dir when sub_dir is non-empty), a '/' unless the directory is empty or already ends in one, then filename[-hash] and .json, or .json.gz when gzip is set; for '/'-free names that last part is the base name |
| PixplotImages.GetPathPrefix | pixplot/pixplot.py:467-468 | os.path.join of a directory and a relative name is the directory's prefix followed by the name, with .gz appended after it |
| PixplotImages.GetPathBasename | pixplot/pixplot.py:461-468 | the base name of a path from get_path is the file name plus its suffixes |
| PixplotImages.CleanFilename | pixplot/pixplot.py:251-253 | a name without '/' is only percent-decoded |
| PixplotImages.CleanFilenameOfJoin | pixplot/pixplot.py:251-253 | clean_filename ignores the directory part of its argument |
| AtlasPacker.CellWidth | pixplot/pixplot.py:297-301 | a width-at-height cell is never narrower than 1 pixel, whatever the image's proportions |
| AtlasPacker.Widths | pixplot/pixplot.py:301 | one cell width per image, each the image's CellWidth |
| AtlasPacker.LodSizes | pixplot/pixplot.py:317-318 | one lod-size w, h per image, each the image's resize_to_max result |
| AtlasPacker.GetAtlasData | pixplot/pixplot.py:277-331 | one placement per image in stream order; each starts or follows its predecessor as the cursor rules say (same row, new row only when y + 2*cell_size fits, else a new atlas at (0,0)); records hold x, y before x advances; the saved atlases are 0 .. n in order, the last saved after the loop |
| AtlasPacker.ChainedInBounds | pixplot/pixplot.py:301-315 | with every width and cell_size at most atlas_size, every placement satisfies x + v <= atlas_size and y + cell_size <= atlas_size |
| AtlasPacker.ChainedDisjoint | pixplot/pixplot.py:303-326 | two placements in the same atlas never overlap: an earlier one ends left of a later one in its row or lies in an earlier row |
| AtlasPacker.Below | pixplot/pixplot.py:121 | the index set 0 .. m-1 |
| AtlasPacker.BelowSize | pixplot/pixplot.py:161 | 0 .. m-1 has m members |
| AtlasPacker.ChainedIdsContiguous | pixplot/pixplot.py:291-314 | when the first image goes to atlas 0, the atlas indices used are exactly 0 .. last, so there are last + 1 of them and none is skipped |
| AtlasPacker.FilteredCellsFit | pixplot/pixplot.py:185-187 | images that pass the oblong test have cells that fit the atlas, so the packer keeps them inside it |
| AtlasPacker.GroupByAtlas | pixplot/pixplot.py:121-126 | sizes[k] and pos[k] list the records with idx k in record order; an idx at or above the number of distinct indices is an IndexError |
| AtlasPacker.GroupsCoverRecords | pixplot/pixplot.py:121-126 | the group lengths sum to the number of records |
| AtlasPacker.PackedOutputGroups | pixplot/pixplot.py:121-164 | the packer's output always groups without error: one group per saved atlas, atlas count equal to the distinct indices, lengths summing to the records |
| Bounds.Include | pixplot/web/assets/js/tsne.js:358-364 | Math.max / Math.min: the new box holds the value and the old box |
| Bounds.IncludeAllTight | pixplot/web/assets/js/tsne.js:358-364 | from the empty box, min <= every value seen <= max and both ends are values seen |
| Bounds.IncludeElseIf | assets/js/tsne.js:360-369 | the else-if step: raises max or else lowers min, never both |
| Bounds.ElseIfLeavesMinUnset | assets/js/tsne.js:362-367 | after 1 then 2 the else-if box keeps min at +Infinity, above both values |
| Bounds.BoundingBox.constructor | pixplot/web/assets/js/tsne.js:358-364 | the box starts empty on both axes |
| Bounds.BoundingBox.UpdateParent | pixplot/web/assets/js/tsne.js:358-364 | both axes take in the cell's coordinate; the box still holds every coordinate added |
| Bounds.BoundingBox.UpdateParentElseIf | assets/js/tsne.js:360-369 | both axes take one else-if step |
| PixplotViewer.AtlasOffset | pixplot/web/assets/js/tsne.js:272-279 | x lies inside the texture, y is a whole number of atlas sides, and x + (y / A) * T gives back idx * A |
| PixplotViewer.AtlasOffsetGrid | pixplot/web/assets/js/tsne.js:272-279 | with texture = k*atlas, atlas idx sits at column idx mod k and row idx div k, scaled by the atlas size |
| PixplotViewer.AtlasOffsetInTexture | pixplot/web/assets/js/tsne.js:272-279 | for idx below atlasesPerTex the offset is a multiple of the atlas size and the whole atlas lies inside the texture |
| PixplotViewer.AtlasOffsetInjective | pixplot/web/assets/js/tsne.js:272-279 | distinct atlases of one texture get distinct offsets |
| PixplotViewer.GlobalOffsetAcrossTextures | pixplot/web/assets/js/tsne.js:171 | the offset of a global atlas index is the offset of its index inside its texture pushed down one texture height per earlier texture, so addCells' global offsets leave texture 0 from the second texture on |
| PixplotViewer.AtlasCountAsWritten | pixplot/web/assets/js/tsne.js:242-246 | getAtlasCount as written never gives a texture more than atlasesPerTex atlases |
| PixplotViewer.AtlasCountDropsFullLastTexture | pixplot/web/assets/js/tsne.js:242-246 | with 8 atlases and 4 per texture the second texture is given 0 atlases |
| PixplotViewer.AtlasCount | pixplot/web/assets/js/tsne.js:242-246 | the intended count: at most atlasesPerTex, exactly atlasesPerTex for a texture whose atlases all exist, and never reaching past atlasCount |
| PixplotViewer.LoadedAtlasesPrefix | pixplot/web/assets/js/tsne.js:229-239 | textures 0 .. t-1 together load min(t*atlasesPerTex, atlasCount) atlases |
| PixplotViewer.AtlasCountsSum | pixplot/web/assets/js/tsne.js:119-120 | over the ceil(atlasCount/atlasesPerTex) textures the intended counts sum to atlasCount |
| PixplotViewer.AtlasCountAsWrittenDiffers | pixplot/web/assets/js/tsne.js:242-246 | the written and intended counts differ exactly on the last texture when atlasCount is a multiple of atlasesPerTex |
| PixplotViewer.TextureAtlases | pixplot/web/assets/js/tsne.js:229-239 | (corrected) Texture.load creates AtlasCount atlases numbered atlasesPerTex*idx + i, each below atlasCount, in this texture, at local position i |
| PixplotViewer.Lengths | pixplot/web/assets/js/tsne.js:369-370 | one length per atlas of the manifest |
| PixplotViewer.HoldsUnique | pixplot/web/assets/js/tsne.js:367-374 | at most one atlas holds each flat cell index |
| PixplotViewer.IndexOfAtlas | pixplot/web/assets/js/tsne.js:367-374 | below the total, the atlas whose prefix range holds idx; at or past it, positions.length |
| PixplotViewer.IndexInAtlas | pixplot/web/assets/js/tsne.js:377-384 | below the total, idx minus the prefix of the atlas holding it, inside that atlas's length; at or past it, idx minus the total |
| PixplotViewer.IndexInDrawCall | pixplot/web/assets/js/tsne.js:407-409 | the index within a draw call is below the number of elements per draw call |
| PixplotViewer.DrawCallOf | pixplot/web/assets/js/tsne.js:402-404 | draw call d is the one whose elements-long range starting at d*elements holds idx |
| PixplotViewer.DrawCallRoundTrip | pixplot/web/assets/js/tsne.js:402-409 | draw call and index in it recover idx and are the only pair that does |
| PixplotViewer.AddCells | pixplot/web/assets/js/tsne.js:156-188 | one cell per entry of cell_sizes, numbered in atlas-major order; cell idx lies in the atlas holding idx at idx minus that atlas's prefix, with that entry's size, its position plus getAtlasOffset of the atlas, and texIdx = floor(atlas / atlasesPerTex) |
| LodPool.SlotAtInjective | pixplot/web/assets/js/tsne.js:1326-1329 | row-major slots of one grid are distinct |
| LodPool.GetOpenTexCoords | pixplot/web/assets/js/tsne.js:1322-1332 | ceil(lodTexture/lodCell) squared slots, row by row, pairwise distinct |
| LodPool.SlotInTexture | pixplot/web/assets/js/tsne.js:1322-1332 | when lodCell divides lodTexture every slot lies inside the texture |
| LodPool.InitialPartition | pixplot/web/assets/js/tsne.js:1292-1301 | the initial state, all slots free and nothing assigned, is a partition |
| LodPool.WithKeyPartition | pixplot/web/assets/js/tsne.js:1446 | creating an empty list for a new grid key keeps the partition |
| LodPool.TakeShape | pixplot/web/assets/js/tsne.js:1442-1451 | taking a slot removes the head of the free list and files it under the cell and at the end of its key's list |
| LodPool.TakeKeepsPartition | pixplot/web/assets/js/tsne.js:1427-1451 | taking the first free slot for an unassigned cell keeps the partition |
| LodPool.TakePartition | pixplot/web/assets/js/tsne.js:1427-1451 | and moves exactly that one slot from free to assigned, nothing else |
| LodPool.Remove | pixplot/web/assets/js/tsne.js:1501 | `delete` drops exactly that key, keeps every other key, and keeps the keys distinct |
| LodPool.ListedCells | pixplot/web/assets/js/tsne.js:1492-1499 | the cells listed under a key are exactly the assigned cells with that grid key |
| LodPool.WithoutKeyFree | pixplot/web/assets/js/tsne.js:1503 | after unloadGridPos the free slots are the old ones plus the key's slots |
| LodPool.WithoutKeyTaken | pixplot/web/assets/js/tsne.js:1492-1499 | the assigned slots lose exactly the key's slots |
| LodPool.WithoutKeySlots | pixplot/web/assets/js/tsne.js:1490-1504 | unloadGridPos keeps the slots disjoint, frees the key's slots and unassigns them |
| LodPool.WithoutKeyPartition | pixplot/web/assets/js/tsne.js:1490-1504 | unloadGridPos keeps the partition, unassigns exactly the key's cells, and leaves every other key and cell as it was |
| LodPool.UnloadWherePartition | pixplot/web/assets/js/tsne.js:1480-1487 | walking a snapshot of the keys keeps the partition and removes exactly the snapshot keys it drops, with their cells |
| LodPool.UnloadFreesFarKeys | pixplot/web/assets/js/tsne.js:1479-1488 | unload frees exactly the keys whose Manhattan distance from the camera exceeds radius, with their cells, and keeps every nearer key |
| LodPool.ClearFreesAll | pixplot/web/assets/js/tsne.js:1507-1511 | clear leaves nothing assigned and every slot free |
| LodPool.PartitionCount | pixplot/web/assets/js/tsne.js:1295 | slots are conserved: free plus assigned is the number of slots |
| LodPool.ActivatedPartition | assets/js/tsne.js:1396-1421 | with the empty-pool guard, activation keeps the partition, never moves an assignment, assigns only listed unassigned cells in the box, and assigns every such cell when free slots suffice |
| LodPool.UnguardedAgrees | pixplot/web/assets/js/tsne.js:1414-1439 | without the guard the result agrees with the guarded one when it completes, always completes when free slots suffice, and its crash state still keeps the partition |
| LodPool.UnguardedCrashesWhenFull | pixplot/web/assets/js/tsne.js:1427-1430 | with no free slot, an unassigned cell in the box makes the unguarded version throw |
| LodPool.ActivatedEmpty | assets/js/tsne.js:1409-1410 | with the guard and no free slot, activation changes nothing |
| LodPool.GetNested | pixplot/web/assets/js/tsne.js:1788-1793 | the list under x then y, or ifEmpty when a level is missing or the list is empty |
| LodPool.CellsAtSpec | pixplot/web/assets/js/tsne.js:1335-1346 | the cells of a grid key are exactly those below n with that key, each once, in increasing order |
| LodPool.IndexedEntry | pixplot/web/assets/js/tsne.js:1341-1343 | every entry of the grid index is a cell listed under its own key |
| LodPool.UnassignedMembers | pixplot/web/assets/js/tsne.js:1469-1471 | the filter keeps a cell exactly when it is listed and holds no slot, and never lengthens the list |
| LodPool.NeighborsExact | pixplot/web/assets/js/tsne.js:1459-1476 | over a complete grid index, loadGridNeighbors queues exactly the unassigned cells in the box around the camera |
| LodPool.NeighborFound | pixplot/web/assets/js/tsne.js:1461-1472 | every unassigned cell inside the box is queued |
| LodPool.GetNestedIndexes | pixplot/web/assets/js/tsne.js:1467 | whatever getNested finds in the grid index is a list of cells |
| LodPool.GridIndexOf | pixplot/web/assets/js/tsne.js:1337-1344 | the indexing loop builds a grid index in which getNested finds exactly CellsAt of each key |
| LodPool.DropCells | pixplot/web/assets/js/tsne.js:1494-1499 | the deletion loop removes exactly the cells of the unloaded entries |
| LodPool.Lod.constructor | pixplot/web/assets/js/tsne.js:1286-1309 | every slot free, in getOpenTexCoords order; no assignment, queue, frame or grid position yet |
| LodPool.Lod.IndexCells | pixplot/web/assets/js/tsne.js:1335-1346 | indexCells stores the grid index that finds each key's cells in index order, changing nothing in the pool |
| LodPool.Lod.AddCellToLodTexture | pixplot/web/assets/js/tsne.js:1442-1456 | files the cell's entry under its grid key (created if missing) and under its index |
| LodPool.Lod.ActivateCell | pixplot/web/assets/js/tsne.js:1417-1431 | one pass of the activation loop: a step of Activated, or, unguarded with an empty free list, the key created and a throw |
| LodPool.Lod.AddCellsToLodTexture | pixplot/web/assets/js/tsne.js:1414-1439 | the pool becomes Activated (guarded) or ActivatedUnguarded's outcome, and cellsToActivate is emptied unless it threw |
| LodPool.Lod.UnloadGridPos | pixplot/web/assets/js/tsne.js:1490-1504 | the pool becomes WithoutKey of the key, keeping the partition |
| LodPool.Lod.Unload | pixplot/web/assets/js/tsne.js:1479-1488 | the pool becomes Unloaded, keeping the partition |
| LodPool.Lod.Clear | pixplot/web/assets/js/tsne.js:1507-1511 | no key and no cell stays assigned, every slot is free, and the grid position is +Infinity |
| LodPool.Lod.LoadGridColumn | pixplot/web/assets/js/tsne.js:1462-1474 | the inner loop appends the unassigned cells of one column of the box |
| LodPool.Lod.LoadGridNeighbors | pixplot/web/assets/js/tsne.js:1459-1476 | sets neighborsRequested and appends the unassigned cells of the whole box, in column order |
| LodPool.Lod.LoadImage | pixplot/web/assets/js/tsne.js:1396-1401 | a cached image is queued for activation unless its cell holds a slot |
| LodPool.Lod.OnImageLoad | pixplot/web/assets/js/tsne.js:1403-1408 | the image is cached and queued unless its cell holds a slot |
| LodPool.Lod.LoadNextImage | pixplot/web/assets/js/tsne.js:1380-1385 | loads the head of the queue, or, with the queue empty, requests the neighbours once |
| LodPool.Lod.UpdateGridPosition | pixplot/web/assets/js/tsne.js:1364-1376 | on a new grid position: record it, clear the request flag, unload far keys, and restart the queue from that key when the camera is near |
| LodPool.Lod.Tick | pixplot/web/assets/js/tsne.js:1388-1393 | counts the frame; every framesBetweenUpdates-th frame activates when near and unloads otherwise |
| AssetsViewer.DerivedSizes | assets/js/tsne.js:37-45 | cellsPerAtlas is 4096, cellsPerTex = cellsPerAtlas * atlasesPerTex, and cellsPerDrawCall = min(indexedElements, (textureCount-1) * cellsPerTex) |
| AssetsViewer.DerivedSizesWhole | assets/js/tsne.js:37-39 | a texture k atlases wide holds k*k atlases and 4096*k*k cells |
| AssetsViewer.AtlasCellIndices | assets/js/tsne.js:170-175 | atlas a's range starts at cellsPerAtlas*a and ends at most cellsPerAtlas later, never past cellCount |
| AssetsViewer.AtlasRangeMembers | assets/js/tsne.js:170-175 | atlas a holds exactly the cells below cellCount whose number div cellsPerAtlas is a |
| AssetsViewer.AtlasRangesPartition | assets/js/tsne.js:170-175 | two atlases share no cell and every cell lies in the atlas its number selects |
| AssetsViewer.AtlasOfTextureAsWritten | assets/js/tsne.js:157-160 | Texture.load as written: the i-th atlas of a texture carries global index atlasesPerTex*idx + i but a cell range starting at cellsPerAtlas*i, so from the second texture on the range starts before the atlas's own cells |
| AssetsViewer.LocalAtlasIndexRepeatsCells | assets/js/tsne.js:159-160 | with 4 atlases per texture, atlas 4 is given cells 0 .. 4095, those of atlas 0 |
| AssetsViewer.AtlasOfTextureCells | assets/js/tsne.js:157-160 | corrected, each atlas gets exactly the cells of its global index, and atlases of different slots share none |
| AssetsViewer.TextureLoad | assets/js/tsne.js:155-167 | (corrected) the loop creates one atlas per slot below atlasCount, each with its global index and that index's cells |
| AssetsViewer.TextureCellIndices | assets/js/tsne.js:76-82 | texture t's range starts at cellsPerTex*t and ends at most cellsPerTex later, never past cellCount; the source stores this function as Texture.cellIndices (assets/js/tsne.js:117, 132) and never calls it |
| AssetsViewer.TextureRangeIsItsAtlases | assets/js/tsne.js:76-82 | a texture's range is the union of the ranges of its atlases |
| AssetsViewer.PosInAtlas | assets/js/tsne.js:280-285 | a cell's position in its atlas is a multiple of the cell size on both axes and the cell lies wholly inside the atlas |
| AssetsViewer.PosInAtlasInjective | assets/js/tsne.js:269-285 | two cells get the same position exactly when their indices in the atlas agree |
| AssetsViewer.GridPosition | assets/js/tsne.js:303-311 | with perSide = ceil(sqrt(cellCount)) and center = spacing*perSide/2, every cell lies in [-center, center - spacing] on both axes |
| AssetsViewer.GridPositionsDistinct | assets/js/tsne.js:303-311 | no two cells share a grid position |
| AssetsViewer.Ceil | assets/js/tsne.js:333 | Math.ceil: the least integer at or above r |
| AssetsViewer.GetSize | assets/js/tsne.js:326-351 | square: 32 by 32 without padding; wider: w = 32, leftPad 0, height in the image's proportion and centred by topPad; taller: the same with the axes swapped |
| AssetsViewer.Shorter | assets/js/tsne.js:332-341 | the shorter side, scaled so the longer one fills the 32-pixel cell, keeps the image's proportion and is below 32; the pad is Math.ceil of half the leftover |
| AssetsViewer.FirstPresent | assets/js/tsne.js:479-483 | what is found is a preference and is offered; nothing is found only when no preference is offered |
| AssetsViewer.FirstPresentSpec | assets/js/tsne.js:479-483 | a preference is found exactly when one is offered; it is offered and no earlier preference is |
| AssetsViewer.SelectionAlwaysOffered | assets/js/tsne.js:476-484 | since 'grid' is appended and is a preference, selection always finds one and it is an option |
| AssetsViewer.Layout.constructor | assets/js/tsne.js:463-468 | nothing selected, no options, nothing drawn |
| AssetsViewer.Layout.SetOptions | assets/js/tsne.js:475-486 | options = given + ['grid']; an unset selection becomes the first preference offered; drawn only with more than one option |
| WebglViewer.ImagesPerMesh | assets/js/tsne-webgl.js:89-106 | min(2^16, textureCount * 4096), a whole number of atlases |
| WebglViewer.ImageAtlasData | assets/js/tsne-webgl.js:349-356 | idx*4096 + row*64 + col == i with row, col < 64 |
| WebglViewer.AtlasDataRoundTrip | assets/js/tsne-webgl.js:349-356 | atlas data and image index are inverse on cells inside an atlas |
| WebglViewer.MeshIdx | assets/js/tsne-webgl.js:410-414 | mesh m and the image's position i mod imagesPerMesh within it give back i |
| WebglViewer.TextureIdx | assets/js/tsne-webgl.js:395-399 | slot t is the one whose 4096-image range holds i's position in its mesh |
| WebglViewer.MeshRoundTrip | assets/js/tsne-webgl.js:395-414 | mesh*imagesPerMesh + (i mod imagesPerMesh) == i, and that pair is the only one |
| WebglViewer.TextureSlotIsAtlas | assets/js/tsne-webgl.js:395-399 | an image's slot plus its mesh's first material is its atlas, so the slot is below the mesh's texture count |
| WebglViewer.ParseImage | assets/js/tsne-webgl.js:247-257 | xOffset = (32 - width)/2 and yOffset = (32 - height)/2: the image is centred in its cell |
| WebglViewer.GetImageData | assets/js/tsne-webgl.js:292-316 | the record keeps idx and the image's sizes; its mesh holds idx, its texture slot covers idx's place in that mesh, and its atlas, row and column (both below 64) give back idx |
| WebglViewer.StoreDataKeys | assets/js/tsne-webgl.js:218-230 | imageData holds exactly the old names and the images' names |
| WebglViewer.StoreDataKeeps | assets/js/tsne-webgl.js:224 | a name no image carries keeps its old data |
| WebglViewer.StoreDataLast | assets/js/tsne-webgl.js:224 | a name is bound to the data of the last image carrying it |
| WebglViewer.StoreAtlasLast | assets/js/tsne-webgl.js:226-228 | the last image of each name is stored under that name in the map of its atlas |
| WebglViewer.ImageStore.constructor | assets/js/tsne-webgl.js:48 | empty stores and imagesPerMesh from the texture limit |
| WebglViewer.ImageStore.SetImageData | assets/js/tsne-webgl.js:218-230 | keys grow by the names in input order, imageData and atlasImages become StoreData and StoreAtlas of the input |
| WebglViewer.MeshRangesPartition | assets/js/tsne-webgl.js:503-511 | the ceil(n/imagesPerMesh) ranges partition 0 .. n-1: image j is in mesh j div imagesPerMesh and in no other |
| WebglViewer.MeshRangesContiguous | assets/js/tsne-webgl.js:506-511 | each mesh starts where the previous one ends and the last ends at n |
| WebglViewer.BuildGeometry | assets/js/tsne-webgl.js:494-556 | ceil(n/imagesPerMesh) meshes; mesh i covers its range of images, its textureIndex buffer holds their texture slots in order, and its materials run from the unclamped start to end index |
| WebglViewer.BuildMesh | assets/js/tsne-webgl.js:508-552 | one mesh: its range starts at i*imagesPerMesh and stops at the next multiple or at the last image, its textureIndex buffer holds the texture slot of each image in the range, in order, and its material indices are the floors of the range ends over imagesPerAtlas |
| WebglViewer.TreeTextStep | assets/js/tsne-webgl.js:609-611 | one more pass appends the `else if` branch of texture i to the tree of textures 0 .. i-1 |
| WebglViewer.AddBranch | assets/js/tsne-webgl.js:609-611 | one pass of the loop turns the tree and branch list of 0 .. i-1 into those of 0 .. i |
| WebglViewer.Frag | assets/js/tsne-webgl.js:630-634 | fixed shader text around a number: the digits after `textures[` read back as idx |
| WebglViewer.FragmentTreeAsWritten | assets/js/tsne-webgl.js:607-612 | the tree as written has branches 0 and 1 .. nTextures-2 only |
| WebglViewer.LastTextureHasNoBranch | assets/js/tsne-webgl.js:609 | with 16 texture units, image 61440 uses slot 15, for which that tree has no branch |
| WebglViewer.FragmentTree | assets/js/tsne-webgl.js:607-612 | corrected loop bound: branches 0 .. nTextures-1, one per texture |
| WebglViewer.EveryTextureHasBranch | assets/js/tsne-webgl.js:551-596 | with the corrected loop every image's slot has a branch in its mesh's shader |
| WebglViewer.AllTexturesLoaded | assets/js/tsne-webgl.js:469 | count filled entries among 0 .. count-1 means every texture is loaded |
| WebglViewer.Loader.constructor | assets/js/tsne-webgl.js:38 | no texture loaded and no geometry built yet |
| WebglViewer.Loader.StartIfReady | assets/js/tsne-webgl.js:468-475 | builds the geometry exactly when every 32px texture is in and there is image data |
| WebglViewer.Loader.HandleTexture | assets/js/tsne-webgl.js:459-462 | stores the texture, then runs the readiness test |
| FileStems.SplitExtRootSpec | utils/process_images.py:441 | os.path.splitext root: a prefix; what is cut is one '.' plus an extension without '.', after a root that is not all dots |
| FileStems.GetFilename | utils/process_images.py:437-441 | the stem has no '/', is a prefix of the base name, and where it is shorter the base name goes on with a '.' |
| FileStems.GetFilenameOfExtension | utils/process_images.py:132 | the stem of dir/name.ext is name whenever name is not all dots and ext is one '.' and a '.'-free extension, as for the .jpg thumbnails and .npy vector files |
| FileStems.GetBaseFilename | utils/parse_metadata.py:62-69 | a prefix of the base name, strictly shorter exactly when the base name holds a '.' |
| FileStems.GetBaseFilenameCutsAtLastDot | utils/parse_metadata.py:62-69 | no '.': the base name; otherwise the base name cut at its last '.' ('a.b.c' gives 'a.b') |
| FileStems.StemsCompared | utils/parse_metadata.py:62-69 | get_filename and get_base_filename agree except on names whose only dots lead them ('.bashrc') |
| FileStems.FirstPiece | imageplot.py:195 | the base name's text before its first '.', with no '.' in it |
| FileStems.AsciiChars | utils/process_images.py:430-434 | only characters below 128, never longer than the input |
| FileStems.AsciiCharsAppend | utils/process_images.py:434 | the filter works piece by piece |
| FileStems.AsciiCharsMembers | utils/process_images.py:430-434 | a character survives exactly when it occurs and is below 128 |
| FileStems.AsciiCharsFixed | utils/process_images.py:430-434 | ASCII text is left as it is, and only such text is |
| FileStems.AsciiCharsIdempotent | utils/process_images.py:430-434 | filtering twice is filtering once |
| ProcessImages.GetAtlasCounts | utils/process_images.py:304-310 | '32px' = ceil(count/4096) and '64px' = ceil(count/1024) |
| ProcessImages.AtlasCountsAtLeast | utils/process_images.py:307-308 | at least as many 64px atlases as 32px ones |
| ProcessImages.AtlasCountsAtMost | utils/process_images.py:307-308 | at most four times as many |
| ProcessImages.GetMagickCommand | utils/process_images.py:386-393 | 'magick ' is prefixed exactly when os.name is 'nt' |
| ProcessImages.ValidateCount | utils/process_images.py:82-85 | fewer images than clusters is an error, otherwise Ok |
| ProcessImages.CountChecksDiffer | utils/process_images.py:82 | this script and pixplot.py disagree exactly when the image count equals n_clusters |
| ProcessImages.ThumbSizesDescendingIsSorted | utils/process_images.py:130 | the visiting order is the sizes, largest first |
| ProcessImages.ThumbSizesVisited | utils/process_images.py:130 | a size is visited exactly when it is a thumbnail size |
| ProcessImages.SelectMembers | utils/process_images.py:130-136 | a size is collected exactly when it is visited and its thumbnail is wanted |
| ProcessImages.SelectDescending | utils/process_images.py:130-136 | collecting from a decreasing order keeps it decreasing |
| ProcessImages.PendingSizes | utils/process_images.py:128-136 | an image's sizes are the thumbnail sizes whose thumbnail is missing or rewritten, largest first |
| ProcessImages.PendingNonEmpty | utils/process_images.py:137 | an image has sizes exactly when one thumbnail is wanted |
| ProcessImages.CreateImageThumbs | utils/process_images.py:120-138 | resize_args is ThumbJobs over all images |
| ProcessImages.PendingThumbs | utils/process_images.py:128-136 | the inner loop yields the pending sizes and their paths |
| ProcessImages.JobsWellFormed | utils/process_images.py:137-138 | every job has sizes, their paths, and its image, position and image count |
| ProcessImages.JobsOrdered | utils/process_images.py:127-138 | jobs follow the images' order, at most one per image |
| ProcessImages.JobsComplete | utils/process_images.py:137-138 | an image gets a job exactly when it has a size to make |
| ProcessImages.ThumbJobsWellFormed | utils/process_images.py:120-138 | every job carries the image's pending sizes with their paths |
| ProcessImages.ThumbJobsOrdered | utils/process_images.py:120-138 | jobs come in image order |
| ProcessImages.ThumbJobsComplete | utils/process_images.py:120-138 | an image gets a job exactly when a thumbnail is still wanted |
| ProcessImages.ResizeCommand | utils/process_images.py:396-413 | the command built with += is the head (hint = first size) followed by the rendered steps |
| ProcessImages.ResizeStepsWrites | utils/process_images.py:409-413 | |sizes| - 1 '-write's and the last path is the command's own output |
| ProcessImages.WritesAllButLast | utils/process_images.py:411-412 | the write count of a chain is its length minus one |
| ProcessImages.HintIsLargest | utils/process_images.py:404 | the decode-size hint of a job is its largest size |
| ProcessImages.ResizeResult | utils/process_images.py:414-418 | the image path on failure, None on success |
| ProcessImages.StemSetMembers | utils/process_images.py:141-143 | a stem is collected exactly when a result carries a path with that stem |
| ProcessImages.ThumbErrors.constructor | utils/process_images.py:141-143 | the errored set starts empty |
| ProcessImages.ThumbErrors.Record | utils/process_images.py:141-143 | adds the stem of every failed path |
| ProcessImages.PoolResults | utils/process_images.py:141 | the pool yields one result per job |
| ProcessImages.FailedStemsMembers | utils/process_images.py:141-143 | a stem is recorded exactly when some failed path has it |
| ProcessImages.FailedStemsOfResults | utils/process_images.py:140-143 | a job's stem is recorded exactly when its command failed |
| ProcessImages.AtlasJobs | utils/process_images.py:355-376 | one run per group |
| ProcessImages.AtlasJobsAt | utils/process_images.py:357-376 | run idx lists group idx, quoted, and writes atlas-<idx>.jpg with the command for idx |
| ProcessImages.WriteAtlasFiles | utils/process_images.py:336-383 | nothing when rewriting is off; otherwise the runs of subdivide(thumbs, atlas_cols**2), which is SizeRuns of the size |
| ProcessImages.AtlasGroups | utils/process_images.py:349-352 | the groups are the thumbnails in order, cols*cols to a group |
| ProcessImages.SubdivideWhole | utils/process_images.py:425 | a whole group size gives exactly the chunks of that size |
| ProcessImages.WriteAtlasJobs | utils/process_images.py:349-376 | as many runs as atlases, run idx being group idx written to atlas-<idx>.jpg |
| ProcessImages.ColsExact | utils/process_images.py:349-352 | 2048/thumb_size is whole, so int(atlas_cols**2) is cols*cols |
| ProcessImages.AtlasFilesMatchCounts | utils/process_images.py:304-310 | the 32px and 64px atlas files are as many as get_atlas_counts announces for the same count |
| ProcessImages.AnnouncedCountsCoverAtlases | utils/process_images.py:304-310 | counts over the vector files never announce fewer atlases than the positions produce |
| ProcessImages.TileTextAt32 | utils/process_images.py:373 | the 32px montage tiles '64.0x64.0' while grouping 4096 thumbnails |
| ProcessImages.AtlasThumbs | utils/process_images.py:327-333 | one thumbnail path per position, in order |
| ProcessImages.CreateAtlasFiles | utils/process_images.py:312-324 | two job lists, for 32px then 64px: list k is what write_atlas_files gives for that size over every position's thumbnail (SizeJobs), so both are empty with rewriting off; both sizes group every position, so the counts behind the assert are equal; with rewriting on, each size writes as many atlases as get_atlas_counts announces for that count |
| ProcessImages.CreateSizeAtlases | utils/process_images.py:318-322 | one size: the group count is the number of positions and the jobs are write_atlas_files' runs over their thumbnails, none with rewriting off |
| ProcessImages.SizeRunsCount | utils/process_images.py:304-309 | the runs of one size over every position's thumbnail number as many as get_atlas_counts announces |
| ParseMetadata.Parse | utils/parse_metadata.py:14-29 | an error names a row among the first n with neither 0 nor 4 fields; a success keeps fewer data rows than rows read, since row 0 is never data |
| ParseMetadata.ParseRows | utils/parse_metadata.py:14-29 | the row loop ends in Parse(csv, |csv|): the state or the first bad row's error |
| ParseMetadata.ParseStopsAtError | utils/parse_metadata.py:21 | once a row fails, later rows are never read |
| ParseMetadata.ParseFails | utils/parse_metadata.py:18-21 | parsing fails exactly when a row has neither 0 nor 4 fields, and names the first |
| ParseMetadata.ParseSelectName | utils/parse_metadata.py:12-25 | select_name is row 0's tag when row 0 has four fields, else 'Metadata' |
| ParseMetadata.ParseKeepsRows | utils/parse_metadata.py:26-29 | rows keeps the data rows in input order |
| ParseMetadata.DataRowsMembers | utils/parse_metadata.py:16-29 | a row is kept exactly when it has four fields and comes after row 0 |
| ParseMetadata.AddRowConsistent | utils/parse_metadata.py:28-29 | filing a row keeps tags_dict and its key order consistent with rows |
| ParseMetadata.ParseConsistent | utils/parse_metadata.py:16-29 | every data row's filename is in tags_dict[tag], and only those |
| ParseMetadata.TagColumn | utils/parse_metadata.py:28 | one tag per row, in order |
| ParseMetadata.FirstOccurrencesMembers | utils/parse_metadata.py:28 | each tag once, exactly the tags that occur |
| ParseMetadata.ParseTagOrder | utils/parse_metadata.py:28 | tags_dict's keys come in the order their tags first occur |
| ParseMetadata.FiltersListTags | utils/parse_metadata.py:39-44 | the filter values of filters.json are exactly the tags of the data rows, each listed once |
| ParseMetadata.RowOfRecord | utils/parse_metadata.py:47-55 | a record with one tag, no year and its filename as title reads back as the row that writes exactly that record |
| ParseMetadata.RecordRoundTrip | utils/parse_metadata.py:47-55 | the row comes back out of its record |
| ParseMetadata.RecordPathNamed | utils/parse_metadata.py:57-59 | the record is written to metadata/<get_base_filename>.json |
| Imageplot.LimitFloat | imageplot.py:177-181 | the cut coordinate keeps its sign and never grows in size |
| Imageplot.LimitFloatSpec | imageplot.py:177-181 | int(f*10000)/10000 keeps the sign, never grows, loses under 1/10000 and is whole in ten-thousandths |
| Imageplot.LimitFloatIdempotent | imageplot.py:177-181 | limiting twice is limiting once |
| Imageplot.PositionsStep | imageplot.py:188-196 | one more row appends its record unless its vector file is skipped |
| Imageplot.KeptMembers | imageplot.py:188-191 | a row is kept exactly when it is in range and not skipped |
| Imageplot.KeptIncreasing | imageplot.py:188 | kept rows are strictly increasing: the input order survives |
| Imageplot.KeptAll | imageplot.py:188-196 | when nothing is skipped every row is kept, in order |
| Imageplot.GatherKept | imageplot.py:188-196 | the records are row(c) of each kept c, in order, and nothing else |
| Imageplot.PositionsAreKeptRows | imageplot.py:188-196 | record k is the record of the k-th kept row: cut coordinates and the vector file's first piece |
| Imageplot.PositionNameHasNoDot | imageplot.py:195 | every record name is one '.'-free piece |
| Imageplot.VectorFileStems | imageplot.py:87-88 | a vector file's stem is the image's base name; its stem's stem is the image's stem |
| Imageplot.SkipErroredExactly | imageplot.py:189-191 | with the intended test a row is kept exactly when its image's stem is not errored |
| Imageplot.AsWrittenKeepsErroredImage | imageplot.py:189-191 | as written the failed image cat.jpg still gets a record; the intended test drops it |
| Imageplot.PlotMontageCommandTarget | imageplot.py:252-259 | the command starts with 'montage @' and ends with the atlas path |
| Imageplot.PlotAtlasJobsAreWanted | imageplot.py:240-260 | the runs are those of the groups whose atlas is missing or rewritten, in group order |
| Imageplot.PlotAtlasJobsRewriting | imageplot.py:243-244 | with rewriting on, group idx gets run idx and every group gets one |
| Imageplot.PositionNames | imageplot.py:221-222 | one name per record, in order |
| Imageplot.Plot.constructor | imageplot.py:18-25 | empty errored set, vector files and positions; rewrite_atlas_files on |
| Imageplot.Plot.RecordFailure | imageplot.py:73 | adds the image's stem to errored_images |
| Imageplot.Plot.LoadVectorFiles | imageplot.py:156 | vector_files becomes the files found |
| Imageplot.Plot.WriteImagePositions | imageplot.py:184-199 | (corrected) appends the records of the rows whose image did not fail, in row order |
| Imageplot.GatherPositions | imageplot.py:188-196 | for any skip test, the loop gathers the records of exactly the rows the test keeps, in row order |
| Imageplot.Plot.WriteAtlasFiles | imageplot.py:226-260 | the runs of the wanted groups of subdivide(thumbs, atlas_cols**2) |
| Imageplot.Plot.CreateAtlasFiles | imageplot.py:202-214 | for sizes[:-1] (16, 32, 64) the runs over every record's thumbnail; the list behind the assert stays empty |
| Imageplot.AtlasCountsPerSize | imageplot.py:236-239 | at 16px an atlas holds 128*128 thumbnails; at every size the runs number ceil(n/cols^2) |
| MakeMontage.GridSide | utils/make_montage.py:9 | n*n >= count, (n-1)^2 < count, and n == 0 exactly when there are no images |
| MakeMontage.PowerOfTwoExponent | utils/make_montage.py:15-17 | the loop stops at the smallest i with 2^i >= n*128, and i == 0 exactly when n == 0 |
| MakeMontage.BuildAtlas | utils/make_montage.py:9-21 | the script's grid side, tile command and extent: 2^i is the smallest power of two covering the n*128 montage |
| MakeMontage.TileCommand | utils/make_montage.py:10 | the montage command: the digits after `-tile ` read back as the grid side n, and the rest is 'x', n again and the output image-atlas.jpg in the data directory |
| MakeMontage.ExtentCommand | utils/make_montage.py:20-21 | the convert command: the digits after `-extent ` read back as the padded side, and the rest is 'x', the side again and the output image-atlas-pot.jpg |

## Left out

- Feature extraction, UMAP/t-SNE, clustering, nearest neighbours and the KDE heightmap are library calls over floats and are not part of this model. So are image decoding and pixel copying, `save_atlas`, and `create_image_vectors` (imageplot.py, utils/process_images.py), apart from the vector-file name it writes.
- All file, subprocess and network I/O is left out. This covers the `os.system`/`subprocess` calls, `os.path.exists` and glob, JSON reading and writing, and the IIIF download. Existence tests enter as parameters (`onDisk`, `existing`), glob results as input lists, and command outcomes as booleans.
- `hash()` (sha224) is a string parameter and `unquote` is an uninterpreted function parameter `decode`.
- Floats: Python true division and JavaScript numbers are exact rationals here. Rounding error, NaN and `cellCount` being undefined in `getTextureCellIndices` are not modelled.
- MakeMontage.GridSide: `math.ceil(count ** 0.5)` is modelled as the exact integer ceiling of the square root; float error for very large counts is left out. `str(n)` is modelled as integer text (Python 3 returns an int from `math.ceil`).
- `random.shuffle` in `get_image_paths` is left out; GetImagePaths returns the sorted order, as with shuffling off.
- The IIIF-manifest branch of `get_image_paths` is left out.
- Rendering, shaders, the camera, tweens, DOM, event handlers and asynchronous loaders are left out. The LOD pool's canvas drawing and `cell.activate`/`deactivate` are among them, and so are the grid-coordinate float division (each cell's grid key is an input) and the welcome/progress screens.
- LodPool: a grid key is the pair (x, y) rather than the string "x.y". The round trip through `split('.')` and `parseInt` is not modelled.
- PixplotViewer: `getIndexInTexture` is never called in the source and is left out.
- WebglViewer: the uv and chart-position parts of `getImageData` are left out (floats).
- WebglViewer.BuildGeometry: the clamped `endMaterial` is computed in the source but never used, so the model uses the unclamped index as the source does.
- ParseMetadata: the order of filenames inside each option file (a Python set) is not modelled. Each tag's filenames are a set.
- ProcessImages.WriteAtlasFiles and Imageplot.Plot.WriteAtlasFiles require that the thumbnail size divides 2048. Every size the source passes does; other sizes would give a fractional `atlas_cols`.
- ProcessImages.ResizeCommand requires at least one size, as every job that `create_image_thumbs` makes has.
- ProcessImages.ValidateCount: the per-file `identify` pass after the count check runs a command per file and is left out.
- Imageplot `create_image_thumbs` (one convert per size) is left out apart from RecordFailure, since it is the same command shape as ProcessImages.
- Concurrency of the worker pool is left out; results are taken in job order, as `imap` returns them.
- PixplotImages.FilterImages: a metadata record is reduced to its optional filename. The CSV reader's IndexError on a row with fewer than four fields (pixplot/pixplot.py:197) is not modelled. Neither is write_metadata's KeyError on a kept record without 'tags' (pixplot/pixplot.py:266, reached from pixplot/pixplot.py:213).
- LodPool.Lod.UnloadGridPos: `deactivate` is taken never to throw, so WithoutKey always unassigns the key's cells. The catch path would leave a cell assigned while its slot is freed (pixplot/web/assets/js/tsne.js:1494-1499, assets/js/tsne.js:1488-1502), and it is not modelled.
- WebglViewer.BuildGeometry: `instances` is taken as the images in index order. The source takes `_.keys(imageData)` (assets/js/tsne-webgl.js:500), where JavaScript puts integer-like names first and repeated names collapse. So in the source a mesh's image range and the texture slots of its images (set from `idx`, assets/js/tsne-webgl.js:300) can disagree; the model does not capture that.
- AtlasPacker.GetAtlasData: with square cells on, the model requires every image to pass ResizeToMax. `square_cells` defaults to False (pixplot/pixplot.py:70) and the run never turns it on, so that failure path is not modelled.
- PixplotViewer: the texture side is taken to be a multiple of the atlas side (AtlasesPerTex requires it), so that atlasesPerTex is a whole number. The source computes `(T / A)^2` in floats and does not check this.

## Findings

| source | as written | input that shows it | evidently intended | confidence | as-written member | corrected member |
|---|---|---|---|---|---|---|
| pixplot/web/assets/js/tsne.js:242-246 | `getAtlasCount` gives atlasCount mod atlasesPerTex to the last texture, which is 0 when atlasCount is a multiple of atlasesPerTex (assets/js/tsne.js:97-100 has the same expression) | 8 atlases, 4 per texture: texture 1 loads 0 atlases | full textures, then the remainder; counts sum to atlasCount | high, not executed | PixplotViewer.AtlasCountDropsFullLastTexture | PixplotViewer.AtlasCountsSum, PixplotViewer.TextureAtlases |
| assets/js/tsne.js:159-160 | `Texture.load` passes the local index i to `getAtlasCellIndices` | 4 atlases per texture, 20000 cells: atlas 4 is given cells 0..4095 | the global atlas index `atlasesPerTex*idx + i` | high, not executed | AssetsViewer.LocalAtlasIndexRepeatsCells | AssetsViewer.AtlasOfTextureCells, AssetsViewer.TextureLoad |
| assets/js/tsne.js:362-367 | the minimum is compared only when the maximum did not move | coordinates 1 then 2 from the empty box: min stays +Infinity | both ends updated independently | high, not executed | Bounds.ElseIfLeavesMinUnset | Bounds.IncludeAllTight |
| assets/js/tsne-webgl.js:609 | loop bound `i < nTextures - 1` omits the branch of the last texture | 16 texture units, image 61440 (slot 15) | `i < nTextures` | high, not executed | WebglViewer.LastTextureHasNoBranch | WebglViewer.EveryTextureHasBranch |
| imageplot.py:189-190 | the errored test looks up the vector file's stem ("cat.jpg", from cat.jpg.npy) among image stems ("cat") | image cat.jpg whose thumbnail conversion fails | compare the image's own stem | high, not executed | Imageplot.AsWrittenKeepsErroredImage | Imageplot.SkipErroredExactly, Imageplot.Plot.WriteImagePositions |
