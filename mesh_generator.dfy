/** `create_mesh` of topogmesh/mesh_generator.py: the vertex allocation loops that
    fill the index table `vert_idx` in place, and the three triangle scans that
    append to the triangle list. Each method is proved to build the value of
    module MeshSpec. The source's NaN test is replaced by the mask `valid`. */
module MeshGenerator {
  import opened Grids
  import opened MeshTypes
  import opened MeshSpec
  import MeshProperties

  /** `table` holds, for every cell, the index the mask gives it. */
  ghost predicate IsIndexTable(table: array2<int>, m: Mask)
    reads table
  {
    && table.Length0 == m.rows && table.Length1 == m.cols
    && forall a, b :: 0 <= a < m.rows && 0 <= b < m.cols ==> table[a, b] == Index(m, a, b)
  }

  /** Builds the mesh of `heightMap`, whose valid cells `valid` marks, with grid
      spacing `scale` and base heights `baseMap` (zeros when absent). */
  method CreateMesh(heightMap: Grid<real>, valid: Mask, scale: real, baseMap: Option<Grid<real>>)
    returns (mesh: Mesh)
    requires GoodInput(heightMap, valid, baseMap)
    ensures mesh == MeshOf(heightMap, valid, scale, baseMap)
    ensures |mesh.vertices| == 2 * ValidCount(valid)
    ensures forall k :: 0 <= k < |mesh.triangles| ==> MeshProperties.InRange(mesh.triangles[k], 0, |mesh.vertices|)
  {
    var baseGrid := if baseMap.None? then ZerosLike(heightMap) else baseMap.value;
    var xSize, ySize := heightMap.rows, heightMap.cols;

    var vertIdx := new int[xSize, ySize]((_, _) => -1);
    var verts := SurfaceVertices(heightMap, valid, scale, vertIdx);
    var baseOffset := |verts|;
    MeshProperties.LayerLength(heightMap, valid, scale);
    verts := BaseVertices(baseGrid, valid, scale, verts);

    var tris: seq<Triangle> := [];
    tris := SurfaceTriangles(valid, vertIdx, tris);
    tris := BaseTriangles(valid, vertIdx, baseOffset, tris);
    tris := SideWalls(valid, vertIdx, baseOffset, tris);
    mesh := Mesh(verts, tris);
    MeshProperties.MeshIndicesInRange(heightMap, valid, scale, baseMap);
  }

  /** The surface-vertex scan: numbers the valid cells in row-major order in
      `vertIdx` (which starts out all -1) and lists their vertices at
      (i * scale, j * scale, height). */
  method SurfaceVertices(heightMap: Grid<real>, valid: Mask, scale: real, vertIdx: array2<int>)
    returns (verts: seq<Vertex>)
    requires Shaped(heightMap) && Shaped(valid) && valid.rows == heightMap.rows && valid.cols == heightMap.cols
    requires vertIdx.Length0 == valid.rows && vertIdx.Length1 == valid.cols
    requires forall a, b :: 0 <= a < valid.rows && 0 <= b < valid.cols ==> vertIdx[a, b] == -1
    modifies vertIdx
    ensures verts == Layer(heightMap, valid, scale)
    ensures IsIndexTable(vertIdx, valid)
  {
    var xSize, ySize := heightMap.rows, heightMap.cols;
    verts := [];
    var i := 0;
    while i < xSize
      invariant 0 <= i <= xSize
      invariant verts == LayerScan(heightMap, valid, scale, i, 0)
      invariant |verts| == Rank(valid, i, 0)
      invariant forall a, b :: 0 <= a < xSize && 0 <= b < ySize ==>
                  vertIdx[a, b] == if a < i then Index(valid, a, b) else -1
    {
      var j := 0;
      while j < ySize
        invariant 0 <= j <= ySize
        invariant verts == LayerScan(heightMap, valid, scale, i, j)
        invariant |verts| == Rank(valid, i, j)
        invariant forall a, b :: 0 <= a < xSize && 0 <= b < ySize ==>
                    vertIdx[a, b] == if Before(a, b, i, j) then Index(valid, a, b) else -1
      {
        if valid.cells[i][j] {
          vertIdx[i, j] := |verts|;
          verts := verts + [Vertex(i as real * scale, j as real * scale, heightMap.cells[i][j])];
        }
        assert verts == LayerScan(heightMap, valid, scale, i, j + 1);
        j := j + 1;
      }
      i := i + 1;
    }
  }

  /** The base-vertex scan: appends, for every valid cell in row-major order, the
      vertex at (i * scale, j * scale, base height). */
  method BaseVertices(baseGrid: Grid<real>, valid: Mask, scale: real, verts: seq<Vertex>)
    returns (out: seq<Vertex>)
    requires Shaped(valid) && Covers(baseGrid, valid)
    ensures out == verts + Layer(baseGrid, valid, scale)
  {
    var xSize, ySize := valid.rows, valid.cols;
    out := verts;
    var i := 0;
    while i < xSize
      invariant 0 <= i <= xSize
      invariant out == verts + LayerScan(baseGrid, valid, scale, i, 0)
    {
      var j := 0;
      while j < ySize
        invariant 0 <= j <= ySize
        invariant out == verts + LayerScan(baseGrid, valid, scale, i, j)
      {
        if valid.cells[i][j] {
          out := out + [Vertex(i as real * scale, j as real * scale, baseGrid.cells[i][j])];
        }
        assert out == verts + LayerScan(baseGrid, valid, scale, i, j + 1);
        j := j + 1;
      }
      i := i + 1;
    }
  }

  /** The surface scan: appends two triangles per 2 x 2 block whose four indices
      all exceed 0. */
  method SurfaceTriangles(ghost valid: Mask, vertIdx: array2<int>, tris: seq<Triangle>)
    returns (out: seq<Triangle>)
    requires IsIndexTable(vertIdx, valid)
    ensures out == tris + StageTris(valid, Surface)
  {
    var xSize, ySize := vertIdx.Length0, vertIdx.Length1;
    out := tris;
    var i := 0;
    while i < xSize - 1
      invariant 0 <= i <= ExtentRows(valid, Surface) && xSize == valid.rows && ySize == valid.cols
      invariant out == tris + Scan(valid, Surface, i, 0)
    {
      var j := 0;
      while j < ySize - 1
        invariant 0 <= j <= ExtentCols(valid, Surface)
        invariant out == tris + Scan(valid, Surface, i, j)
      {
        ghost var prev := out;
        out := SurfaceBlock(valid, vertIdx, i, j, out);
        ScanStep(valid, Surface, i, j, tris, prev, out);
        j := j + 1;
      }
      ScanNextRow(valid, Surface, i, tris, out);
      i := i + 1;
    }
  }

  /** The surface triangles of the block with top-left cell (i, j): two, when
      its four indices all exceed 0. */
  method SurfaceBlock(ghost valid: Mask, vertIdx: array2<int>, i: nat, j: nat, tris: seq<Triangle>)
    returns (out: seq<Triangle>)
    requires IsIndexTable(vertIdx, valid) && i + 1 < vertIdx.Length0 && j + 1 < vertIdx.Length1
    ensures out == tris + SurfaceQuad(valid, i, j)
  {
    out := tris;
    var a, b, c, d := vertIdx[i, j], vertIdx[i + 1, j], vertIdx[i, j + 1], vertIdx[i + 1, j + 1];
    if Min4(a, b, c, d) > 0 {
      out := out + [Triangle(a, b, c), Triangle(b, d, c)];
    }
  }

  /** The base scan: appends two base-layer triangles, with the winding reversed,
      per 2 x 2 block whose four cells are all valid. */
  method BaseTriangles(ghost valid: Mask, vertIdx: array2<int>, baseOffset: int, tris: seq<Triangle>)
    returns (out: seq<Triangle>)
    requires IsIndexTable(vertIdx, valid) && baseOffset == ValidCount(valid)
    ensures out == tris + StageTris(valid, Base)
  {
    var xSize, ySize := vertIdx.Length0, vertIdx.Length1;
    out := tris;
    var i := 0;
    while i < xSize - 1
      invariant 0 <= i <= ExtentRows(valid, Base) && xSize == valid.rows && ySize == valid.cols
      invariant out == tris + Scan(valid, Base, i, 0)
    {
      var j := 0;
      while j < ySize - 1
        invariant 0 <= j <= ExtentCols(valid, Base)
        invariant out == tris + Scan(valid, Base, i, j)
      {
        ghost var prev := out;
        out := BaseBlock(valid, vertIdx, baseOffset, i, j, out);
        ScanStep(valid, Base, i, j, tris, prev, out);
        j := j + 1;
      }
      ScanNextRow(valid, Base, i, tris, out);
      i := i + 1;
    }
  }

  /** The base triangles of the block with top-left cell (i, j): two, on the
      base layer and wound the other way, when its four cells are all valid. */
  method BaseBlock(ghost valid: Mask, vertIdx: array2<int>, baseOffset: int, i: nat, j: nat, tris: seq<Triangle>)
    returns (out: seq<Triangle>)
    requires IsIndexTable(vertIdx, valid) && baseOffset == ValidCount(valid)
    requires i + 1 < vertIdx.Length0 && j + 1 < vertIdx.Length1
    ensures out == tris + BaseQuad(valid, i, j)
  {
    out := tris;
    var a, b, c, d := vertIdx[i, j], vertIdx[i + 1, j], vertIdx[i, j + 1], vertIdx[i + 1, j + 1];
    if Min4(a, b, c, d) >= 0 {
      out := out + [Triangle(baseOffset + a, baseOffset + c, baseOffset + b),
                    Triangle(baseOffset + b, baseOffset + c, baseOffset + d)];
    }
  }

  /** The wall scan: for each valid cell, a wall quad on the pair with its i + 1
      neighbour and on the pair with its j + 1 neighbour, when that neighbour is
      valid and a cell beside the pair is missing. */
  method SideWalls(valid: Mask, vertIdx: array2<int>, baseOffset: int, tris: seq<Triangle>)
    returns (out: seq<Triangle>)
    requires Shaped(valid) && IsIndexTable(vertIdx, valid) && baseOffset == ValidCount(valid)
    ensures out == tris + StageTris(valid, Walls)
  {
    var xSize, ySize := valid.rows, valid.cols;
    out := tris;
    var i := 0;
    while i < xSize
      invariant 0 <= i <= xSize
      invariant out == tris + Scan(valid, Walls, i, 0)
    {
      var j := 0;
      while j < ySize
        invariant 0 <= j <= ySize
        invariant out == tris + Scan(valid, Walls, i, j)
      {
        ghost var prev := out;
        out := CellWalls(valid, vertIdx, baseOffset, i, j, out);
        ScanStep(valid, Walls, i, j, tris, prev, out);
        j := j + 1;
      }
      ScanNextRow(valid, Walls, i, tris, out);
      i := i + 1;
    }
  }

  /** The walls a cell starts: none for a missing cell, else the wall on its pair
      with (i + 1, j) followed by the wall on its pair with (i, j + 1). */
  method CellWalls(valid: Mask, vertIdx: array2<int>, baseOffset: int, i: nat, j: nat, tris: seq<Triangle>)
    returns (out: seq<Triangle>)
    requires Shaped(valid) && IsIndexTable(vertIdx, valid) && baseOffset == ValidCount(valid)
    requires i < valid.rows && j < valid.cols
    ensures out == tris + Emit(valid, Walls, i, j)
  {
    out := tris;
    if valid.cells[i][j] {
      out := RightEdgeWall(valid, vertIdx, baseOffset, i, j, out);
      out := DownEdgeWall(valid, vertIdx, baseOffset, i, j, out);
    }
  }

  /** The wall on the pair of valid cell (i, j) with (i + 1, j): a quad when the
      neighbour is valid and a cell beside the pair (column j - 1 or j + 1) is
      missing, wound by whether the j - 1 side is open. */
  method RightEdgeWall(valid: Mask, vertIdx: array2<int>, baseOffset: int, i: nat, j: nat, tris: seq<Triangle>)
    returns (out: seq<Triangle>)
    requires Shaped(valid) && IsIndexTable(vertIdx, valid) && baseOffset == ValidCount(valid)
    requires i < valid.rows && j < valid.cols && valid.cells[i][j]
    ensures out == tris + RightWall(valid, i, j)
  {
    var xSize, ySize := valid.rows, valid.cols;
    out := tris;
    var currTop := vertIdx[i, j];
    var currBot := baseOffset + currTop;
    if i < xSize - 1 && valid.cells[i + 1][j] {
      var needWall := false;
      if j == 0 || !valid.cells[i][j - 1] || !valid.cells[i + 1][j - 1] {
        needWall := true;
      } else if j == ySize - 1 || !valid.cells[i][j + 1] || !valid.cells[i + 1][j + 1] {
        needWall := true;
      }
      if needWall {
        var rightTop := vertIdx[i + 1, j];
        var rightBot := baseOffset + rightTop;
        if j == 0 || (j > 0 && (!valid.cells[i][j - 1] || !valid.cells[i + 1][j - 1])) {
          out := out + [Triangle(currTop, currBot, rightTop), Triangle(rightTop, currBot, rightBot)];
        } else {
          out := out + [Triangle(currTop, rightTop, currBot), Triangle(rightTop, rightBot, currBot)];
        }
      }
    }
  }

  /** The wall on the pair of valid cell (i, j) with (i, j + 1), the same rule
      across rows, wound by whether the i - 1 side is open. */
  method DownEdgeWall(valid: Mask, vertIdx: array2<int>, baseOffset: int, i: nat, j: nat, tris: seq<Triangle>)
    returns (out: seq<Triangle>)
    requires Shaped(valid) && IsIndexTable(vertIdx, valid) && baseOffset == ValidCount(valid)
    requires i < valid.rows && j < valid.cols && valid.cells[i][j]
    ensures out == tris + DownWall(valid, i, j)
  {
    var xSize, ySize := valid.rows, valid.cols;
    out := tris;
    var currTop := vertIdx[i, j];
    var currBot := baseOffset + currTop;
    if j < ySize - 1 && valid.cells[i][j + 1] {
      var needWall := false;
      if i == 0 || !valid.cells[i - 1][j] || !valid.cells[i - 1][j + 1] {
        needWall := true;
      } else if i == xSize - 1 || !valid.cells[i + 1][j] || !valid.cells[i + 1][j + 1] {
        needWall := true;
      }
      if needWall {
        var downTop := vertIdx[i, j + 1];
        var downBot := baseOffset + downTop;
        if i == 0 || (i > 0 && (!valid.cells[i - 1][j] || !valid.cells[i - 1][j + 1])) {
          out := out + [Triangle(currTop, downTop, currBot), Triangle(downTop, downBot, currBot)];
        } else {
          out := out + [Triangle(currTop, currBot, downTop), Triangle(downTop, currBot, downBot)];
        }
      }
    }
  }
}
