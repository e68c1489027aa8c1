/** The mesh that `create_mesh` (topogmesh/mesh_generator.py) builds, defined as
    functions of the input grids. Each of the four stages of the source is a
    row-major scan; here a scan is a concatenation over cells, first the cells of
    earlier rows, then the earlier cells of the current row. The methods of
    module MeshGenerator are proved to build exactly these values, and module
    MeshProperties proves what the values are. */
module MeshSpec {
  import opened Grids
  import opened MeshTypes

  // ---------------------------------------------------------------------------
  // Vertex allocation

  /** `z` can be read at every cell of `m`. */
  predicate Covers(z: Grid<real>, m: Mask) {
    Shaped(z) && m.rows <= z.rows && m.cols <= z.cols
  }

  /** The vertices one layer gets for the cells before (i, j) in row-major
      order (j <= cols): one per valid cell, at (i * scale, j * scale), with its
      height read from `z`. */
  function LayerScan(z: Grid<real>, m: Mask, scale: real, i: nat, j: nat): seq<Vertex>
    requires Covers(z, m) && j <= m.cols
    decreases i, j
  {
    if j > 0 then
      LayerScan(z, m, scale, i, j - 1)
      + if IsValid(m, i, j - 1)
        then [Vertex(i as real * scale, (j - 1) as real * scale, z.cells[i][j - 1])]
        else []
    else if i > 0 then LayerScan(z, m, scale, i - 1, m.cols)
    else []
  }

  /** One vertex layer: the whole row-major scan. */
  function Layer(z: Grid<real>, m: Mask, scale: real): seq<Vertex>
    requires Covers(z, m)
  {
    LayerScan(z, m, scale, m.rows, 0)
  }

  /** `np.zeros_like`: a grid of the same shape holding 0 everywhere. */
  function ZerosLike(g: Grid<real>): (r: Grid<real>)
    ensures Shaped(r) && r.rows == g.rows && r.cols == g.cols
    ensures forall i, j :: 0 <= i < r.rows && 0 <= j < r.cols ==> r.cells[i][j] == 0.0
  {
    Grid(g.rows, g.cols, seq(g.rows, _ => seq(g.cols, _ => 0.0)))
  }

  /** The base heights: the base map when one is given, zeros otherwise. */
  function BaseHeights(heightMap: Grid<real>, baseMap: Option<Grid<real>>): Grid<real>
  {
    if baseMap.None? then ZerosLike(heightMap) else baseMap.value
  }

  // ---------------------------------------------------------------------------
  // Triangles

  /** The three triangle-emitting scans of the source, in their order. */
  datatype Stage = Surface | Base | Walls

  /** Rows scanned by a stage: 2 x 2 blocks start at rows 0 .. rows - 2, walls at
      every row. */
  function ExtentRows(m: Mask, s: Stage): nat {
    if s == Walls then m.rows else if m.rows == 0 then 0 else m.rows - 1
  }

  function ExtentCols(m: Mask, s: Stage): nat {
    if s == Walls then m.cols else if m.cols == 0 then 0 else m.cols - 1
  }

  function Min4(a: int, b: int, c: int, d: int): (r: int)
    ensures r <= a && r <= b && r <= c && r <= d
    ensures r == a || r == b || r == c || r == d
  {
    var ab := if a <= b then a else b;
    var cd := if c <= d then c else d;
    if ab <= cd then ab else cd
  }

  /** The two surface triangles of the block with top-left cell (i, j), kept only
      when all four indices exceed 0 (the source's `min(a, b, c, d) > 0`). */
  function SurfaceQuad(m: Mask, i: int, j: int): seq<Triangle>
  {
    var a, b, c, d := Index(m, i, j), Index(m, i + 1, j), Index(m, i, j + 1), Index(m, i + 1, j + 1);
    if Min4(a, b, c, d) > 0 then [Triangle(a, b, c), Triangle(b, d, c)] else []
  }

  /** The two base triangles of the same block, kept when all four indices are at
      least 0, on the base layer (offset by the valid-cell count). */
  function BaseQuad(m: Mask, i: int, j: int): seq<Triangle>
  {
    var n := ValidCount(m);
    var a, b, c, d := Index(m, i, j), Index(m, i + 1, j), Index(m, i, j + 1), Index(m, i + 1, j + 1);
    if Min4(a, b, c, d) >= 0 then [Triangle(n + a, n + c, n + b), Triangle(n + b, n + c, n + d)] else []
  }

  /** The two windings a wall quad can have. */
  datatype Winding = Forward | Backward

  /** A wall quad between the top/bottom vertices `t0`/`b0` of one cell and
      `t1`/`b1` of its neighbour, split along the `b0`-`t1` diagonal. */
  function WallQuad(t0: int, b0: int, t1: int, b1: int, w: Winding): seq<Triangle>
  {
    match w
    case Forward => [Triangle(t0, b0, t1), Triangle(t1, b0, b1)]
    case Backward => [Triangle(t0, t1, b0), Triangle(t1, b1, b0)]
  }

  /** The pair (i, j)-(i + 1, j) misses a neighbour on the j - 1 side. */
  predicate OpenTowardColBefore(m: Mask, i: int, j: int) {
    !IsValid(m, i, j - 1) || !IsValid(m, i + 1, j - 1)
  }

  /** The pair (i, j)-(i + 1, j) misses a neighbour on the j + 1 side. */
  predicate OpenTowardColAfter(m: Mask, i: int, j: int) {
    !IsValid(m, i, j + 1) || !IsValid(m, i + 1, j + 1)
  }

  /** The pair (i, j)-(i, j + 1) misses a neighbour on the i - 1 side. */
  predicate OpenTowardRowBefore(m: Mask, i: int, j: int) {
    !IsValid(m, i - 1, j) || !IsValid(m, i - 1, j + 1)
  }

  /** The pair (i, j)-(i, j + 1) misses a neighbour on the i + 1 side. */
  predicate OpenTowardRowAfter(m: Mask, i: int, j: int) {
    !IsValid(m, i + 1, j) || !IsValid(m, i + 1, j + 1)
  }

  /** The wall on the pair (i, j)-(i + 1, j), for a valid cell (i, j). */
  function RightWall(m: Mask, i: int, j: int): seq<Triangle>
  {
    var n := ValidCount(m);
    if IsValid(m, i + 1, j) && (OpenTowardColBefore(m, i, j) || OpenTowardColAfter(m, i, j)) then
      var curr, right := Index(m, i, j), Index(m, i + 1, j);
      WallQuad(curr, n + curr, right, n + right,
               if OpenTowardColBefore(m, i, j) then Forward else Backward)
    else []
  }

  /** The wall on the pair (i, j)-(i, j + 1), for a valid cell (i, j). */
  function DownWall(m: Mask, i: int, j: int): seq<Triangle>
  {
    var n := ValidCount(m);
    if IsValid(m, i, j + 1) && (OpenTowardRowBefore(m, i, j) || OpenTowardRowAfter(m, i, j)) then
      var curr, down := Index(m, i, j), Index(m, i, j + 1);
      WallQuad(curr, n + curr, down, n + down,
               if OpenTowardRowBefore(m, i, j) then Backward else Forward)
    else []
  }

  /** The wall triangles the scan emits at cell (i, j). */
  function WallsAt(m: Mask, i: int, j: int): seq<Triangle>
  {
    if IsValid(m, i, j) then RightWall(m, i, j) + DownWall(m, i, j) else []
  }

  /** What stage `s` emits at scan position (i, j). */
  function Emit(m: Mask, s: Stage, i: int, j: int): seq<Triangle>
  {
    match s
    case Surface => SurfaceQuad(m, i, j)
    case Base => BaseQuad(m, i, j)
    case Walls => WallsAt(m, i, j)
  }

  /** What stage `s` emits at the positions before (i, j) in row-major order
      over its extent (j <= its column count). */
  function Scan(m: Mask, s: Stage, i: nat, j: nat): seq<Triangle>
    requires j <= ExtentCols(m, s)
    decreases i, j
  {
    if j > 0 then Scan(m, s, i, j - 1) + Emit(m, s, i, j - 1)
    else if i > 0 then Scan(m, s, i - 1, ExtentCols(m, s))
    else []
  }

  /** All triangles of stage `s`. */
  function StageTris(m: Mask, s: Stage): seq<Triangle>
  {
    Scan(m, s, ExtentRows(m, s), 0)
  }

  /** The input `create_mesh` accepts: a height grid and a mask of its shape, and
      a base map that can be read wherever the height grid can. */
  predicate GoodInput(heightMap: Grid<real>, valid: Mask, baseMap: Option<Grid<real>>) {
    && Shaped(heightMap) && Shaped(valid)
    && valid.rows == heightMap.rows && valid.cols == heightMap.cols
    && (baseMap.Some? ==> Covers(baseMap.value, valid))
  }

  /** The mesh `create_mesh` returns: surface vertices, then base vertices; surface
      triangles, then base triangles, then walls. */
  function MeshOf(heightMap: Grid<real>, valid: Mask, scale: real, baseMap: Option<Grid<real>>): Mesh
    requires GoodInput(heightMap, valid, baseMap)
  {
    Mesh(Layer(heightMap, valid, scale) + Layer(BaseHeights(heightMap, baseMap), valid, scale),
         StageTris(valid, Surface) + StageTris(valid, Base) + StageTris(valid, Walls))
  }

  // ---------------------------------------------------------------------------
  // One scan step, as the loops of module MeshGenerator take it

  /** Appending what stage `s` emits at (i, j) extends the scan to (i, j + 1). */
  lemma ScanStep(m: Mask, s: Stage, i: nat, j: nat, tris: seq<Triangle>, prev: seq<Triangle>, out: seq<Triangle>)
    requires j < ExtentCols(m, s)
    requires prev == tris + Scan(m, s, i, j) && out == prev + Emit(m, s, i, j)
    ensures out == tris + Scan(m, s, i, j + 1)
  {
  }

  /** The scan at the end of row i is the scan at the start of row i + 1. */
  lemma ScanNextRow(m: Mask, s: Stage, i: nat, tris: seq<Triangle>, out: seq<Triangle>)
    requires out == tris + Scan(m, s, i, ExtentCols(m, s))
    ensures out == tris + Scan(m, s, i + 1, 0)
  {
  }
}
