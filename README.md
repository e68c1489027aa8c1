# topogmesh `create_mesh` in Dafny

topogmesh turns a 2D height grid into an indexed, closed-looking triangle mesh.
The grid comes from rasterised terrain, and its NaN cells lie outside the model.
`create_mesh` builds the mesh in four row-major scans over one validity mask and one index table `vert_idx`:

1. Vertex allocation. Every valid cell gets a surface vertex, numbered in scan order in `vert_idx`. It then gets a base vertex `base_offset` places later.
2. Surface triangles. A 2 x 2 block gets two triangles when all four of its cells are valid and none of them holds vertex 0 (every index exceeds 0).
3. Base triangles. A 2 x 2 block with all four cells valid gets two triangles on the base layer, with the winding reversed.
4. Side walls. For each valid cell, its pair with the cell at `i + 1` and its pair with the cell at `j + 1` can each be closed off. A wall quad goes up when the pair's other cell is valid and a cell beside the pair is missing or off the grid. Which side is open decides the winding.

The project is organised as follows:

- `mesh.dfy` (module `MeshTypes`): the value classes `Vertex`, `Triangle` and `Mesh`.
- `grids.dfy` (module `Grids`): grids, the validity mask and the row-major rank that `vert_idx` holds.
- `mesh_spec.dfy` (module `MeshSpec`): the mesh `create_mesh` returns, as functions of its inputs: `Layer`, `SurfaceQuad`, `BaseQuad`, `RightWall`, `DownWall`, `Scan` and `MeshOf`.
- `mesh_generator.dfy` (module `MeshGenerator`): `create_mesh` itself, in imperative form.
  - `vert_idx` is an `array2<int>`. It is allocated at `-1` and filled in place.
  - Vertices and triangles are appended in nested `while` loops.
  - The `need_wall` flag and the winding tests are written as in the source.
  - Every method is proved to build exactly the value defined in `MeshSpec`.
- `mesh_properties.dfy` (module `MeshProperties`): what that value is. This covers:
  - vertex counts and positions, and index ranges;
  - the block triangles and their reversal on the base;
  - the wall-site rule and its windings;
  - exact counts for fully valid grids.

NaN is modelled by a separate boolean mask `valid` of the grid's shape. Heights, base heights and `scale` are `real` payloads. The mesh's integer structure never depends on them.

## Model

| member | source | states |
|---|---|---|
| MeshTypes.TriangleKeepsIndices | topogmesh/mesh.py:14-17 | a triangle keeps its three indices, in the order given |
| MeshTypes.VertexKeepsCoordinates | topogmesh/mesh.py:36-39 | a vertex keeps its three coordinates |
| MeshTypes.MeshAccessors | topogmesh/mesh.py:64-77 | `vertices` and `triangles` return exactly the lists the mesh was built from, and a mesh is determined by them |
| Grids.RankBelowCount | topogmesh/mesh_generator.py:38-44 | a valid cell's index is below the number of valid cells, which is `base_offset` |
| Grids.RankIncreasing | topogmesh/mesh_generator.py:38-42 | indices strictly increase along the row-major scan over valid cells |
| Grids.RankMonotone | topogmesh/mesh_generator.py:38-42 | the count of valid cells before a position never decreases along the scan |
| Grids.IndexInjective | topogmesh/mesh_generator.py:38-42 | two distinct valid cells never share a vertex index |
| Grids.NoValidCells | topogmesh/mesh_generator.py:38-44 | `base_offset` (the valid-cell count) is 0 if and only if no cell is valid |
| MeshSpec.ZerosLike | topogmesh/mesh_generator.py:29-30 | the default base map has the height grid's shape and is 0 everywhere |
| MeshSpec.Min4 | topogmesh/mesh_generator.py:60-60 | `min(a, b, c, d)` is at most each argument and equals one of them |
| MeshGenerator.CreateMesh | topogmesh/mesh_generator.py:10-129 | the result is the surface vertices, then the base vertices, then the surface, base and wall triangles (`MeshOf`); it has 2 x (valid cells) vertices and every triangle index is a vertex |
| MeshGenerator.SurfaceVertices | topogmesh/mesh_generator.py:35-43 | it fills the `-1` table so that each valid cell holds its row-major rank and every other cell stays -1, and lists one vertex per valid cell at (i * scale, j * scale, height) |
| MeshGenerator.BaseVertices | topogmesh/mesh_generator.py:44-49 | it appends one base vertex per valid cell, in the same order, with the base height |
| MeshGenerator.SurfaceTriangles | topogmesh/mesh_generator.py:54-62 | it appends exactly the surface stage: every block of the index table, in scan order |
| MeshGenerator.SurfaceBlock | topogmesh/mesh_generator.py:56-62 | a block gets (a, b, c), (b, d, c) exactly when all four indices exceed 0 |
| MeshGenerator.BaseTriangles | topogmesh/mesh_generator.py:65-73 | it appends exactly the base stage, in scan order |
| MeshGenerator.BaseBlock | topogmesh/mesh_generator.py:67-73 | a block gets (n+a, n+c, n+b), (n+b, n+c, n+d) exactly when all four indices are at least 0 |
| MeshGenerator.SideWalls | topogmesh/mesh_generator.py:76-127 | it appends exactly the wall stage: each cell's walls in row-major order |
| MeshGenerator.CellWalls | topogmesh/mesh_generator.py:78-83 | a missing cell adds nothing; a valid cell adds its pair wall with (i + 1, j), then its pair wall with (i, j + 1) |
| MeshGenerator.RightEdgeWall | topogmesh/mesh_generator.py:86-105 | a quad goes on pair (i, j)-(i + 1, j) when (i + 1, j) is valid and a side is open, wound by whether the j - 1 side is open |
| MeshGenerator.DownEdgeWall | topogmesh/mesh_generator.py:108-127 | the same rule on pair (i, j)-(i, j + 1), wound by whether the i - 1 side is open |
| MeshProperties.Flip | topogmesh/mesh_generator.py:72-73 | reversing a triangle keeps its first vertex and its vertex set, and changes it unless its last two indices are equal |
| MeshProperties.IndexTable | topogmesh/mesh_generator.py:35-44 | `vert_idx` holds a valid cell's rank, in [0, n), and -1 for every other cell |
| MeshProperties.LayerLength | topogmesh/mesh_generator.py:38-49 | each vertex layer has exactly one vertex per valid cell, so `base_offset` is the valid-cell count |
| MeshProperties.LayerAt | topogmesh/mesh_generator.py:38-42 | the vertex at a valid cell's index is at (i * scale, j * scale) with that cell's height |
| MeshProperties.LayersShareFootprint | topogmesh/mesh_generator.py:42-49 | two layers over the same mask agree position by position in x and y |
| MeshProperties.LayerScaling | topogmesh/mesh_generator.py:42-42 | spacing `scale` multiplies x and y of the unit-spacing layer and keeps z |
| MeshProperties.MeshVertices | topogmesh/mesh_generator.py:29-49 | there are 2n vertices; base vertex n + k has the x and y of surface vertex k; a valid cell's surface vertex carries its height and its base vertex the base height, 0 without a base map |
| MeshProperties.QuadTriangles | topogmesh/mesh_generator.py:54-73 | a block gets base triangles iff its four cells are valid, and they are the reversed surface pattern moved to the base layer; it gets surface triangles iff it is full and its top-left index is not 0; a full block's corner indices increase a < c < b < d |
| MeshProperties.StageIndexRanges | topogmesh/mesh_generator.py:54-127 | surface triangles use indices in [1, n), base triangles indices in [n, 2n), walls indices in [0, 2n) |
| MeshProperties.MeshIndicesInRange | topogmesh/mesh_generator.py:52-129 | every mesh index names a vertex; the surface triangles come first and use only indices below n; the base triangles come next and use only indices n and above |
| MeshProperties.ThinGridHasNoQuads | topogmesh/mesh_generator.py:54-73 | a grid with fewer than 2 rows or 2 columns has no surface and no base triangles |
| MeshProperties.EmptyMaskEmitsNothing | topogmesh/mesh_generator.py:54-127 | with no valid cell, no block and no cell emits a triangle |
| MeshProperties.EmptyMaskEmptyMesh | topogmesh/mesh_generator.py:35-129 | with no valid cell the mesh has no vertices and no triangles |
| MeshProperties.BaseSurfaceGap | topogmesh/mesh_generator.py:60-71 | the base has as many triangles as the surface, or exactly two more |
| MeshProperties.WallSites | topogmesh/mesh_generator.py:86-116 | for a valid cell, each of its two pairs gets two wall triangles iff the other cell of the pair is valid and the pair is at the first or last column (or row) or misses one of its four side cells; one quad even when both sides are open; the cell's total is the sum over its two pairs |
| MeshProperties.RightWallWinding | topogmesh/mesh_generator.py:94-105 | at a site, open toward j - 1 gives (c, c', r), (r, c', r'), even when j + 1 is open too; otherwise (c, r, c'), (r, r', c') |
| MeshProperties.DownWallWinding | topogmesh/mesh_generator.py:116-127 | at a site, open toward i - 1 gives (c, d, c'), (d, d', c'); otherwise (c, c', d), (d, c', d') |
| MeshProperties.WindingsMirror | topogmesh/mesh_generator.py:98-105 | both windings of a wall quad have two triangles; each triangle of one is the reversal of the other's; both use only the quad's four vertices |
| MeshProperties.RightWallVertices | topogmesh/mesh_generator.py:86-105 | a wall on pair (i, j)-(i + 1, j) needs (i + 1, j) valid and uses only that pair's top and bottom vertices |
| MeshProperties.DownWallVertices | topogmesh/mesh_generator.py:108-127 | a wall on pair (i, j)-(i, j + 1) needs (i, j + 1) valid and uses only that pair's top and bottom vertices |
| MeshProperties.LoneIndexDistinct | topogmesh/mesh_generator.py:38-49 | a valid cell with no valid neighbour shares neither vertex with any cell that has one |
| MeshProperties.LoneCellUnused | topogmesh/mesh_generator.py:54-127 | a valid cell with no valid 4-neighbour starts no wall, and no triangle of the mesh uses its surface or base vertex |
| MeshProperties.AllValidSites | topogmesh/mesh_generator.py:86-116 | in a fully valid grid, the wall sites are exactly the frame pairs |
| MeshProperties.AllValidWallCount | topogmesh/mesh_generator.py:76-127 | a fully valid R x C grid gets one wall quad per frame pair: R - 1 down each outer column and C - 1 along each outer row, a single column or row counted once |
| MeshProperties.RectangleWalls | topogmesh/mesh_generator.py:76-127 | a fully valid R x C grid with R, C >= 2 gets 2(R - 1) + 2(C - 1) wall quads |
| MeshProperties.StripMesh | topogmesh/mesh_generator.py:35-127 | a fully valid 1 x N grid has 2N vertices, N - 1 wall quads and no other triangles |
| MeshProperties.TwoByTwo | topogmesh/mesh_generator.py:52-127 | a fully valid 2 x 2 grid gets 0 surface, 2 base and 8 wall triangles: 10 in all |

## Left out

- NaN handling and floating point. `valid` is an input mask standing for `~np.isnan(height_map)`. Heights, base heights and `scale` are exact reals, so `i * scale` has no rounding. A NaN in the base map is an ordinary payload.
- Shape of `base_map`. The model demands that `base_map` can be read at every cell of the height grid (`Covers`). The source reads it only at valid cells, so it would also accept a smaller array that still covers every valid cell. Such inputs are outside the model. The entry points in topogmesh/mesh_generator.py always pass a base map of the height grid's shape.
- Triangle count for a fully valid 2 x 2 grid. The model follows the code: the `> 0` test at line 60 drops the block of vertex 0, so the count is 10.
- Watertightness and positive volume. The code does not promise them: the dropped surface block and single walls on width-1 strips show this.
- Default `scale`. `create_mesh` defaults `scale` to 1. Dafny has no default parameters, so `CreateMesh` takes `scale` explicitly and callers pass `1.0` for the default.
- The `__repr__` methods of topogmesh/mesh.py. They format strings for display only.
- `mesh_from_shape_file`, `mesh_from_uk_shape` and `mesh_from_tif` (topogmesh/mesh_generator.py:132-311). They do raster reading, reprojection and float normalisation through foreign libraries, and are not part of this model.
- topogmesh/geo_utils.py, hm_utils.py, export.py, webscraper.py, file_reader.py, cli.py, main.py and `__init__.py`. They hold I/O, network access, file formats and command-line plumbing, and are not part of this model.
- Stage methods split into per-block and per-cell helpers. Each loop body of `create_mesh` became a small method (`SurfaceBlock`, `BaseBlock`, `CellWalls`, `RightEdgeWall`, `DownEdgeWall`) that the loops call. The loops, bounds and branch tests are those of the source. The lemmas `MeshSpec.ScanStep` and `MeshSpec.ScanNextRow` unfold one step of `Scan` for these loops' invariants; they are proof helpers and state nothing about the source.
