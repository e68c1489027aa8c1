/** What the mesh of `create_mesh` (module MeshSpec) is: vertex counts and
    positions, index ranges, the triangles of each 2 x 2 block, the wall rule
    and its windings, and exact counts for fully valid grids. */
module MeshProperties {
  import opened Grids
  import opened MeshTypes
  import opened MeshSpec

  // ---------------------------------------------------------------------------
  // Triangle helpers

  /** All three indices of `t` lie in [lo, hi). */
  predicate InRange(t: Triangle, lo: int, hi: int) {
    lo <= t.v1 < hi && lo <= t.v2 < hi && lo <= t.v3 < hi
  }

  /** `t` uses vertex `v`. */
  predicate Mentions(t: Triangle, v: int) {
    t.v1 == v || t.v2 == v || t.v3 == v
  }

  /** The same triangle wound the other way. */
  function Flip(t: Triangle): (r: Triangle)
    ensures r.v1 == t.v1
    ensures r == t <==> t.v2 == t.v3
    ensures forall v :: Mentions(r, v) <==> Mentions(t, v)
  {
    Triangle(t.v1, t.v3, t.v2)
  }

  /** `t` moved to another layer by adding `n` to each index. */
  function Shift(t: Triangle, n: int): Triangle {
    Triangle(t.v1 + n, t.v2 + n, t.v3 + n)
  }

  /** Every triangle of `ts` satisfies `P`. */
  ghost predicate AllTris(ts: seq<Triangle>, P: Triangle -> bool) {
    forall k :: 0 <= k < |ts| ==> P(ts[k])
  }

  // ---------------------------------------------------------------------------
  // Scans: what holds at every position holds of the whole stage

  lemma {:induction false} ScanAll(m: Mask, s: Stage, i: nat, j: nat, P: Triangle -> bool)
    requires j <= ExtentCols(m, s)
    requires forall a, b :: 0 <= a && 0 <= b < ExtentCols(m, s) && Before(a, b, i, j) ==> AllTris(Emit(m, s, a, b), P)
    ensures AllTris(Scan(m, s, i, j), P)
    decreases i, j
  {
    if j > 0 {
      ScanAll(m, s, i, j - 1, P);
      assert Before(i, j - 1, i, j);
    } else if i > 0 {
      ScanAll(m, s, i - 1, ExtentCols(m, s), P);
    }
  }

  /** A property of every scan position's triangles holds of the whole stage. */
  lemma StageAll(m: Mask, s: Stage, P: Triangle -> bool)
    requires forall a, b :: 0 <= a < ExtentRows(m, s) && 0 <= b < ExtentCols(m, s) ==> AllTris(Emit(m, s, a, b), P)
    ensures AllTris(StageTris(m, s), P)
  {
    ScanAll(m, s, ExtentRows(m, s), 0, P);
  }

  lemma {:induction false} ScanEmpty(m: Mask, s: Stage, i: nat, j: nat)
    requires j <= ExtentCols(m, s)
    requires forall a, b :: 0 <= a && 0 <= b < ExtentCols(m, s) && Before(a, b, i, j) ==> Emit(m, s, a, b) == []
    ensures Scan(m, s, i, j) == []
    decreases i, j
  {
    if j > 0 {
      ScanEmpty(m, s, i, j - 1);
      assert Before(i, j - 1, i, j);
    } else if i > 0 {
      ScanEmpty(m, s, i - 1, ExtentCols(m, s));
    }
  }

  // ---------------------------------------------------------------------------
  // Vertex allocation

  /** A valid cell's index is its rank, below the valid-cell count; every other
      cell's index is -1. */
  lemma IndexTable(m: Mask, i: int, j: int)
    ensures IsValid(m, i, j) ==> 0 <= Index(m, i, j) == Rank(m, i, j) < ValidCount(m)
    ensures !IsValid(m, i, j) ==> Index(m, i, j) == -1
  {
    if IsValid(m, i, j) {
      RankBelowCount(m, i, j);
    }
  }

  lemma {:induction false} LayerScanLength(z: Grid<real>, m: Mask, scale: real, i: nat, j: nat)
    requires Covers(z, m) && j <= m.cols
    ensures |LayerScan(z, m, scale, i, j)| == Rank(m, i, j)
    decreases i, j
  {
    if j > 0 {
      LayerScanLength(z, m, scale, i, j - 1);
    } else if i > 0 {
      LayerScanLength(z, m, scale, i - 1, m.cols);
    }
  }

  /** A layer has exactly one vertex per valid cell. */
  lemma LayerLength(z: Grid<real>, m: Mask, scale: real)
    requires Covers(z, m)
    ensures |Layer(z, m, scale)| == ValidCount(m)
  {
    LayerScanLength(z, m, scale, m.rows, 0);
  }

  lemma {:induction false} LayerScanAt(z: Grid<real>, m: Mask, scale: real, i: nat, j: nat, k: nat, l: nat)
    requires Covers(z, m) && IsValid(m, i, j) && Before(i, j, k, l) && l <= m.cols
    ensures Rank(m, i, j) < |LayerScan(z, m, scale, k, l)|
    ensures LayerScan(z, m, scale, k, l)[Rank(m, i, j)] == Vertex(i as real * scale, j as real * scale, z.cells[i][j])
    decreases k, l
  {
    if l > 0 {
      LayerScanLength(z, m, scale, k, l - 1);
      if (k, l - 1) != (i, j) {
        LayerScanAt(z, m, scale, i, j, k, l - 1);
      }
    } else {
      LayerScanAt(z, m, scale, i, j, k - 1, m.cols);
    }
  }

  /** The vertex at a valid cell's index sits at that cell, with its height. */
  lemma LayerAt(z: Grid<real>, m: Mask, scale: real, i: nat, j: nat)
    requires Covers(z, m) && IsValid(m, i, j)
    ensures Rank(m, i, j) < |Layer(z, m, scale)|
    ensures Layer(z, m, scale)[Rank(m, i, j)] == Vertex(i as real * scale, j as real * scale, z.cells[i][j])
  {
    LayerScanAt(z, m, scale, i, j, m.rows, 0);
  }

  /** Two vertex lists agree position by position on x and y. */
  ghost predicate SameFootprint(vs: seq<Vertex>, ws: seq<Vertex>) {
    |vs| == |ws| && forall k :: 0 <= k < |vs| ==> vs[k].x == ws[k].x && vs[k].y == ws[k].y
  }

  lemma {:induction false} LayerScanFootprint(z: Grid<real>, z': Grid<real>, m: Mask, scale: real, i: nat, j: nat)
    requires Covers(z, m) && Covers(z', m) && j <= m.cols
    ensures SameFootprint(LayerScan(z, m, scale, i, j), LayerScan(z', m, scale, i, j))
    decreases i, j
  {
    if j > 0 {
      LayerScanFootprint(z, z', m, scale, i, j - 1);
    } else if i > 0 {
      LayerScanFootprint(z, z', m, scale, i - 1, m.cols);
    }
  }

  /** Two layers over the same mask differ only in their heights. */
  lemma LayersShareFootprint(z: Grid<real>, z': Grid<real>, m: Mask, scale: real)
    requires Covers(z, m) && Covers(z', m)
    ensures SameFootprint(Layer(z, m, scale), Layer(z', m, scale))
  {
    LayerScanFootprint(z, z', m, scale, m.rows, 0);
  }

  /** `vs` is `ws` with x and y multiplied by `s`. */
  ghost predicate ScaledBy(vs: seq<Vertex>, ws: seq<Vertex>, s: real) {
    |vs| == |ws| && forall k :: 0 <= k < |vs| ==> vs[k] == Vertex(ws[k].x * s, ws[k].y * s, ws[k].z)
  }

  lemma ScaledAppend(vs: seq<Vertex>, ws: seq<Vertex>, xs: seq<Vertex>, ys: seq<Vertex>, s: real)
    requires ScaledBy(vs, ws, s) && ScaledBy(xs, ys, s)
    ensures ScaledBy(vs + xs, ws + ys, s)
  {
  }

  lemma {:induction false} LayerScanScaling(z: Grid<real>, m: Mask, scale: real, i: nat, j: nat)
    requires Covers(z, m) && j <= m.cols
    ensures ScaledBy(LayerScan(z, m, scale, i, j), LayerScan(z, m, 1.0, i, j), scale)
    decreases i, j
  {
    if j > 0 {
      LayerScanScaling(z, m, scale, i, j - 1);
      if IsValid(m, i, j - 1) {
        var v := Vertex(i as real * 1.0, (j - 1) as real * 1.0, z.cells[i][j - 1]);
        var w := Vertex(i as real * scale, (j - 1) as real * scale, z.cells[i][j - 1]);
        assert w == Vertex(v.x * scale, v.y * scale, v.z);
        ScaledAppend(LayerScan(z, m, scale, i, j - 1), LayerScan(z, m, 1.0, i, j - 1), [w], [v], scale);
      }
    } else if i > 0 {
      LayerScanScaling(z, m, scale, i - 1, m.cols);
    }
  }

  /** Scaling law: spacing `scale` multiplies x and y of the unit-spacing layer
      and leaves z alone. */
  lemma LayerScaling(z: Grid<real>, m: Mask, scale: real)
    requires Covers(z, m)
    ensures ScaledBy(Layer(z, m, scale), Layer(z, m, 1.0), scale)
  {
    LayerScanScaling(z, m, scale, m.rows, 0);
  }

  /** The vertex list: 2 x (valid cells) vertices; the surface vertex of a valid
      cell sits at its index with its height, its base vertex at `n` places later
      with the base height (0 without a base map), and each base vertex has the
      x and y of the surface vertex `n` places before it. */
  lemma MeshVertices(heightMap: Grid<real>, valid: Mask, scale: real, baseMap: Option<Grid<real>>)
    requires GoodInput(heightMap, valid, baseMap)
    ensures var vs, n := MeshOf(heightMap, valid, scale, baseMap).vertices, ValidCount(valid);
      && |vs| == 2 * n
      && (forall k :: 0 <= k < n ==> vs[n + k].x == vs[k].x && vs[n + k].y == vs[k].y)
      && (forall i: nat, j: nat :: IsValid(valid, i, j) ==>
            && 0 <= Index(valid, i, j) < n
            && vs[Index(valid, i, j)] == Vertex(i as real * scale, j as real * scale, heightMap.cells[i][j])
            && vs[n + Index(valid, i, j)]
               == Vertex(i as real * scale, j as real * scale, BaseHeights(heightMap, baseMap).cells[i][j])
            && (baseMap.None? ==> vs[n + Index(valid, i, j)].z == 0.0))
  {
    var base := BaseHeights(heightMap, baseMap);
    var top, bottom := Layer(heightMap, valid, scale), Layer(base, valid, scale);
    var n := ValidCount(valid);
    LayerLength(heightMap, valid, scale);
    LayerLength(base, valid, scale);
    LayersShareFootprint(heightMap, base, valid, scale);
    forall i: nat, j: nat | IsValid(valid, i, j)
      ensures 0 <= Index(valid, i, j) < n
      ensures (top + bottom)[Index(valid, i, j)] == Vertex(i as real * scale, j as real * scale, heightMap.cells[i][j])
      ensures (top + bottom)[n + Index(valid, i, j)] == Vertex(i as real * scale, j as real * scale, base.cells[i][j])
    {
      IndexTable(valid, i, j);
      LayerAt(heightMap, valid, scale, i, j);
      LayerAt(base, valid, scale, i, j);
    }
  }

  // ---------------------------------------------------------------------------
  // Surface and base triangles

  /** The four cells of the block with top-left cell (i, j) are all valid. */
  predicate FullBlock(m: Mask, i: int, j: int) {
    IsValid(m, i, j) && IsValid(m, i + 1, j) && IsValid(m, i, j + 1) && IsValid(m, i + 1, j + 1)
  }

  /** A block gets base triangles iff it is full, and they are the surface
      pattern (a, b, c), (b, d, c) reversed and moved to the base layer; it gets
      the surface triangles iff it is full and its top-left index is not 0. The
      corner indices of a full block increase in scan order. */
  lemma QuadTriangles(m: Mask, i: int, j: int)
    ensures var n := ValidCount(m);
      var a, b, c, d := Index(m, i, j), Index(m, i + 1, j), Index(m, i, j + 1), Index(m, i + 1, j + 1);
      && (FullBlock(m, i, j) ==> 0 <= a < c < b < d < n)
      && BaseQuad(m, i, j)
         == (if FullBlock(m, i, j) then [Shift(Flip(Triangle(a, b, c)), n), Shift(Flip(Triangle(b, d, c)), n)] else [])
      && SurfaceQuad(m, i, j)
         == (if FullBlock(m, i, j) && a > 0 then [Triangle(a, b, c), Triangle(b, d, c)] else [])
  {
    IndexTable(m, i, j);
    IndexTable(m, i + 1, j);
    IndexTable(m, i, j + 1);
    IndexTable(m, i + 1, j + 1);
    if FullBlock(m, i, j) {
      RankIncreasing(m, i, j, i, j + 1);
      RankIncreasing(m, i, j + 1, i + 1, j);
      RankIncreasing(m, i + 1, j, i + 1, j + 1);
    }
  }

  /** Surface triangles use surface indices 1 .. n - 1, base triangles base
      indices n .. 2n - 1, walls indices 0 .. 2n - 1, where n is the number of
      valid cells. */
  lemma StageIndexRanges(m: Mask)
    ensures AllTris(StageTris(m, Surface), t => InRange(t, 1, ValidCount(m)))
    ensures AllTris(StageTris(m, Base), t => InRange(t, ValidCount(m), 2 * ValidCount(m)))
    ensures AllTris(StageTris(m, Walls), t => InRange(t, 0, 2 * ValidCount(m)))
  {
    var n := ValidCount(m);
    var inSurface := t => InRange(t, 1, n);
    var inBase := t => InRange(t, n, 2 * n);
    var inMesh := t => InRange(t, 0, 2 * n);
    forall a, b | 0 <= a < ExtentRows(m, Surface) && 0 <= b < ExtentCols(m, Surface)
      ensures AllTris(Emit(m, Surface, a, b), inSurface)
      ensures AllTris(Emit(m, Base, a, b), inBase)
    {
      QuadRanges(m, a, b);
    }
    StageAll(m, Surface, inSurface);
    StageAll(m, Base, inBase);
    forall a, b | 0 <= a < ExtentRows(m, Walls) && 0 <= b < ExtentCols(m, Walls)
      ensures AllTris(Emit(m, Walls, a, b), inMesh)
    {
      WallRanges(m, a, b);
    }
    StageAll(m, Walls, inMesh);
  }

  /** The index ranges of one block's surface and base triangles. */
  lemma QuadRanges(m: Mask, a: int, b: int)
    ensures var ts, n := Emit(m, Surface, a, b), ValidCount(m);
      forall k :: 0 <= k < |ts| ==> InRange(ts[k], 1, n)
    ensures var ts, n := Emit(m, Base, a, b), ValidCount(m);
      forall k :: 0 <= k < |ts| ==> InRange(ts[k], n, 2 * n)
  {
    QuadTriangles(m, a, b);
  }

  /** The index range of one cell's wall triangles. */
  lemma WallRanges(m: Mask, a: int, b: int)
    ensures var ts, n := Emit(m, Walls, a, b), ValidCount(m);
      forall k :: 0 <= k < |ts| ==> InRange(ts[k], 0, 2 * n)
  {
    IndexTable(m, a, b);
    IndexTable(m, a + 1, b);
    IndexTable(m, a, b + 1);
    RightWallVertices(m, a, b);
    DownWallVertices(m, a, b);
  }

  /** Every triangle index is a vertex of the mesh; the surface triangles come
      first and use only surface vertices (below n), the base triangles follow
      and use only base vertices (n and above). */
  lemma MeshIndicesInRange(heightMap: Grid<real>, valid: Mask, scale: real, baseMap: Option<Grid<real>>)
    requires GoodInput(heightMap, valid, baseMap)
    ensures var mesh, n := MeshOf(heightMap, valid, scale, baseMap), ValidCount(valid);
      var s, b := |StageTris(valid, Surface)|, |StageTris(valid, Base)|;
      && |mesh.vertices| == 2 * n
      && (forall k :: 0 <= k < |mesh.triangles| ==> InRange(mesh.triangles[k], 0, |mesh.vertices|))
      && (forall k :: 0 <= k < s ==> InRange(mesh.triangles[k], 0, n))
      && (forall k :: s <= k < s + b ==> InRange(mesh.triangles[k], n, 2 * n))
  {
    MeshVertices(heightMap, valid, scale, baseMap);
    StageIndexRanges(valid);
  }

  /** Without a 2 x 2 block there are no surface or base triangles. */
  lemma ThinGridHasNoQuads(m: Mask)
    requires m.rows < 2 || m.cols < 2
    ensures StageTris(m, Surface) == [] && StageTris(m, Base) == []
  {
    ScanEmpty(m, Surface, ExtentRows(m, Surface), 0);
    ScanEmpty(m, Base, ExtentRows(m, Base), 0);
  }

  /** With no valid cell, no scan position emits a triangle. */
  lemma EmptyMaskEmitsNothing(m: Mask, s: Stage, a: int, b: int)
    requires ValidCount(m) == 0
    ensures Emit(m, s, a, b) == []
  {
    NoValidCells(m);
    IndexTable(m, a, b);
    IndexTable(m, a + 1, b);
    IndexTable(m, a, b + 1);
    IndexTable(m, a + 1, b + 1);
  }

  /** With no valid cell the mesh is empty. */
  lemma EmptyMaskEmptyMesh(heightMap: Grid<real>, valid: Mask, scale: real, baseMap: Option<Grid<real>>)
    requires GoodInput(heightMap, valid, baseMap) && ValidCount(valid) == 0
    ensures MeshOf(heightMap, valid, scale, baseMap) == Mesh([], [])
  {
    LayerLength(heightMap, valid, scale);
    LayerLength(BaseHeights(heightMap, baseMap), valid, scale);
    forall s: Stage, a: int, b: int ensures Emit(valid, s, a, b) == [] {
      EmptyMaskEmitsNothing(valid, s, a, b);
    }
    ScanEmpty(valid, Surface, ExtentRows(valid, Surface), 0);
    ScanEmpty(valid, Base, ExtentRows(valid, Base), 0);
    ScanEmpty(valid, Walls, ExtentRows(valid, Walls), 0);
  }

  lemma {:induction false} BlockGapScan(m: Mask, i: nat, j: nat)
    requires j <= ExtentCols(m, Base)
    ensures var g := |Scan(m, Base, i, j)| - |Scan(m, Surface, i, j)|;
      g == 0 || (g == 2 && Rank(m, i, j) >= 1)
    decreases i, j
  {
    if j > 0 {
      BlockGapScan(m, i, j - 1);
      QuadTriangles(m, i, j - 1);
      IndexTable(m, i, j - 1);
      RankMonotone(m, i, j - 1, i, j);
      if IsValid(m, i, j - 1) {
        RankIncreasing(m, i, j - 1, i, j);
      }
    } else if i > 0 {
      BlockGapScan(m, i - 1, ExtentCols(m, Base));
      RankMonotone(m, i - 1, ExtentCols(m, Base), i, 0);
    }
  }

  /** The base has as many triangles as the surface, or two more: only the block
      whose top-left cell holds vertex 0 can lose its surface triangles. */
  lemma BaseSurfaceGap(m: Mask)
    ensures |StageTris(m, Base)| == |StageTris(m, Surface)|
         || |StageTris(m, Base)| == |StageTris(m, Surface)| + 2
  {
    BlockGapScan(m, ExtentRows(m, Base), 0);
  }

  // ---------------------------------------------------------------------------
  // Walls

  /** The pair (i, j)-(i + 1, j) is a wall site: both cells valid, and the pair is
      at the first or last column or misses one of its four side neighbours. */
  predicate RightSite(m: Mask, i: int, j: int) {
    && IsValid(m, i, j) && IsValid(m, i + 1, j)
    && (j == 0 || j == m.cols - 1
        || !IsValid(m, i, j - 1) || !IsValid(m, i + 1, j - 1)
        || !IsValid(m, i, j + 1) || !IsValid(m, i + 1, j + 1))
  }

  /** The pair (i, j)-(i, j + 1) is a wall site, the same rule across rows. */
  predicate DownSite(m: Mask, i: int, j: int) {
    && IsValid(m, i, j) && IsValid(m, i, j + 1)
    && (i == 0 || i == m.rows - 1
        || !IsValid(m, i - 1, j) || !IsValid(m, i - 1, j + 1)
        || !IsValid(m, i + 1, j) || !IsValid(m, i + 1, j + 1))
  }

  /** A cell emits exactly one quad (two triangles) per wall site it starts, even
      when both sides of the site are open: pair by pair, then for the cell. */
  lemma WallSites(m: Mask, i: int, j: int)
    ensures IsValid(m, i, j) ==> |RightWall(m, i, j)| == if RightSite(m, i, j) then 2 else 0
    ensures IsValid(m, i, j) ==> |DownWall(m, i, j)| == if DownSite(m, i, j) then 2 else 0
    ensures |WallsAt(m, i, j)| == (if RightSite(m, i, j) then 2 else 0) + (if DownSite(m, i, j) then 2 else 0)
  {
  }

  /** Winding choice: open toward column j - 1 gives the first winding, even when
      column j + 1 is open too; open only toward j + 1 gives the other. */
  lemma RightWallWinding(m: Mask, i: int, j: int)
    requires RightSite(m, i, j)
    ensures var n, c, r := ValidCount(m), Index(m, i, j), Index(m, i + 1, j);
      RightWall(m, i, j)
      == if j == 0 || !IsValid(m, i, j - 1) || !IsValid(m, i + 1, j - 1)
         then [Triangle(c, n + c, r), Triangle(r, n + c, n + r)]
         else [Triangle(c, r, n + c), Triangle(r, n + r, n + c)]
  {
  }

  /** Winding choice across rows: open toward row i - 1 wins. */
  lemma DownWallWinding(m: Mask, i: int, j: int)
    requires DownSite(m, i, j)
    ensures var n, c, d := ValidCount(m), Index(m, i, j), Index(m, i, j + 1);
      DownWall(m, i, j)
      == if i == 0 || !IsValid(m, i - 1, j) || !IsValid(m, i - 1, j + 1)
         then [Triangle(c, d, n + c), Triangle(d, n + d, n + c)]
         else [Triangle(c, n + c, d), Triangle(d, n + c, n + d)]
  {
  }

  /** The two windings of a wall quad use the same four vertices, each triangle
      of one being the other's reversed. */
  lemma WindingsMirror(t0: int, b0: int, t1: int, b1: int)
    ensures |WallQuad(t0, b0, t1, b1, Forward)| == |WallQuad(t0, b0, t1, b1, Backward)| == 2
    ensures forall k :: 0 <= k < 2 ==>
      WallQuad(t0, b0, t1, b1, Backward)[k] == Flip(WallQuad(t0, b0, t1, b1, Forward)[k])
    ensures forall w: Winding, k, v ::
              (0 <= k < 2 && Mentions(WallQuad(t0, b0, t1, b1, w)[k], v) ==> v == t0 || v == b0 || v == t1 || v == b1)
  {
  }

  /** `v` is one of the four vertices of the pair of cells with surface indices
      `c` and `r`. */
  predicate OnPair(v: int, c: int, r: int, n: int) {
    v == c || v == n + c || v == r || v == n + r
  }

  /** `t` uses only vertices of that pair. */
  predicate OnPairTriangle(t: Triangle, c: int, r: int, n: int) {
    OnPair(t.v1, c, r, n) && OnPair(t.v2, c, r, n) && OnPair(t.v3, c, r, n)
  }

  /** A wall on the pair (i, j)-(i + 1, j) needs a valid (i + 1, j) and uses only
      the four vertices of the pair. */
  lemma RightWallVertices(m: Mask, i: int, j: int)
    ensures var ts, n, c, r := RightWall(m, i, j), ValidCount(m), Index(m, i, j), Index(m, i + 1, j);
      && (ts != [] ==> IsValid(m, i + 1, j))
      && forall k :: 0 <= k < |ts| ==> OnPairTriangle(ts[k], c, r, n)
  {
  }

  /** A wall on the pair (i, j)-(i, j + 1) needs a valid (i, j + 1) and uses only
      the four vertices of the pair. */
  lemma DownWallVertices(m: Mask, i: int, j: int)
    ensures var ts, n, c, d := DownWall(m, i, j), ValidCount(m), Index(m, i, j), Index(m, i, j + 1);
      && (ts != [] ==> IsValid(m, i, j + 1))
      && forall k :: 0 <= k < |ts| ==> OnPairTriangle(ts[k], c, d, n)
  {
  }

  /** Cell (i, j) has a valid 4-neighbour. */
  predicate HasValidNeighbour(m: Mask, i: int, j: int) {
    IsValid(m, i - 1, j) || IsValid(m, i + 1, j) || IsValid(m, i, j - 1) || IsValid(m, i, j + 1)
  }

  /** A valid cell whose vertices no other valid cell shares: neither its surface
      nor its base index is the surface or base index of a valid cell that has a
      valid neighbour. */
  lemma LoneIndexDistinct(m: Mask, i: int, j: int, a: int, b: int)
    requires IsValid(m, i, j) && !HasValidNeighbour(m, i, j)
    requires IsValid(m, a, b) && HasValidNeighbour(m, a, b)
    ensures var n, r, q := ValidCount(m), Index(m, i, j), Index(m, a, b);
      q != r && q != n + r && n + q != r && n + q != n + r
  {
    IndexTable(m, i, j);
    IndexTable(m, a, b);
    IndexInjective(m, i, j, a, b);
  }

  /** Triangle `t` uses neither vertex `r` nor vertex `n + r`. */
  predicate Avoids(t: Triangle, r: int, n: int) {
    !Mentions(t, r) && !Mentions(t, n + r)
  }

  /** No block has a triangle on a lone cell's vertices. */
  lemma LoneCellQuads(m: Mask, i: int, j: int, a: int, b: int)
    requires IsValid(m, i, j) && !HasValidNeighbour(m, i, j)
    ensures var ts, r, n := Emit(m, Surface, a, b), Index(m, i, j), ValidCount(m);
      forall k :: 0 <= k < |ts| ==> Avoids(ts[k], r, n)
    ensures var ts, r, n := Emit(m, Base, a, b), Index(m, i, j), ValidCount(m);
      forall k :: 0 <= k < |ts| ==> Avoids(ts[k], r, n)
  {
    QuadTriangles(m, a, b);
    if FullBlock(m, a, b) {
      LoneIndexDistinct(m, i, j, a, b);
      LoneIndexDistinct(m, i, j, a + 1, b);
      LoneIndexDistinct(m, i, j, a, b + 1);
      LoneIndexDistinct(m, i, j, a + 1, b + 1);
    }
  }

  /** No wall on a pair (a, b)-(a + 1, b) touches a lone cell's vertices. */
  lemma LoneCellRightWall(m: Mask, i: int, j: int, a: int, b: int)
    requires IsValid(m, i, j) && !HasValidNeighbour(m, i, j) && IsValid(m, a, b)
    ensures var ts, r, n := RightWall(m, a, b), Index(m, i, j), ValidCount(m);
      forall k :: 0 <= k < |ts| ==> Avoids(ts[k], r, n)
  {
    RightWallVertices(m, a, b);
    if IsValid(m, a + 1, b) {
      LoneIndexDistinct(m, i, j, a, b);
      LoneIndexDistinct(m, i, j, a + 1, b);
    }
  }

  /** No wall on a pair (a, b)-(a, b + 1) touches a lone cell's vertices. */
  lemma LoneCellDownWall(m: Mask, i: int, j: int, a: int, b: int)
    requires IsValid(m, i, j) && !HasValidNeighbour(m, i, j) && IsValid(m, a, b)
    ensures var ts, r, n := DownWall(m, a, b), Index(m, i, j), ValidCount(m);
      forall k :: 0 <= k < |ts| ==> Avoids(ts[k], r, n)
  {
    DownWallVertices(m, a, b);
    if IsValid(m, a, b + 1) {
      LoneIndexDistinct(m, i, j, a, b);
      LoneIndexDistinct(m, i, j, a, b + 1);
    }
  }

  /** No wall touches a lone cell's vertices. */
  lemma LoneCellWalls(m: Mask, i: int, j: int, a: int, b: int)
    requires IsValid(m, i, j) && !HasValidNeighbour(m, i, j)
    ensures var ts, r, n := Emit(m, Walls, a, b), Index(m, i, j), ValidCount(m);
      forall k :: 0 <= k < |ts| ==> Avoids(ts[k], r, n)
  {
    if IsValid(m, a, b) {
      LoneCellRightWall(m, i, j, a, b);
      LoneCellDownWall(m, i, j, a, b);
      var right, down := RightWall(m, a, b), DownWall(m, a, b);
      assert Emit(m, Walls, a, b) == right + down;
    }
  }

  /** A valid cell with no valid 4-neighbour starts no wall, and no triangle of
      the mesh uses its surface or its base vertex. */
  lemma LoneCellUnused(heightMap: Grid<real>, valid: Mask, scale: real, baseMap: Option<Grid<real>>, i: int, j: int)
    requires GoodInput(heightMap, valid, baseMap)
    requires IsValid(valid, i, j) && !HasValidNeighbour(valid, i, j)
    ensures WallsAt(valid, i, j) == []
    ensures var ts, n, r := MeshOf(heightMap, valid, scale, baseMap).triangles, ValidCount(valid), Index(valid, i, j);
      forall k :: 0 <= k < |ts| ==> !Mentions(ts[k], r) && !Mentions(ts[k], n + r)
  {
    var n, r := ValidCount(valid), Index(valid, i, j);
    var avoids := t => Avoids(t, r, n);
    forall s: Stage, a: int, b: int ensures AllTris(Emit(valid, s, a, b), avoids) {
      LoneCellQuads(valid, i, j, a, b);
      LoneCellWalls(valid, i, j, a, b);
    }
    StageAll(valid, Surface, avoids);
    StageAll(valid, Base, avoids);
    StageAll(valid, Walls, avoids);
    var ts := StageTris(valid, Surface) + StageTris(valid, Base) + StageTris(valid, Walls);
    assert AllTris(ts, avoids);
  }

  // ---------------------------------------------------------------------------
  // Fully valid grids

  /** In a fully valid grid, the wall sites are the pairs along the outer frame. */
  lemma AllValidSites(m: Mask, i: nat, j: nat)
    requires AllValid(m) && i < m.rows && j < m.cols
    ensures |WallsAt(m, i, j)|
         == (if i < m.rows - 1 && (j == 0 || j == m.cols - 1) then 2 else 0)
          + (if j < m.cols - 1 && (i == 0 || i == m.rows - 1) then 2 else 0)
  {
    assert IsValid(m, i, j);
    WallSites(m, i, j);
  }

  /** Wall triangles of a fully valid `rows` x `cols` grid from the cells of row i
      before column j (1 <= j): a quad down the frame at the first and last
      columns, a quad along the first and last rows. */
  function FrameRow(rows: int, cols: int, i: int, j: int): int {
    2 * ((if i < rows - 1 then (if j >= 1 then 1 else 0) + (if j == cols && cols >= 2 then 1 else 0) else 0)
       + (if i == 0 || i == rows - 1 then (if j <= cols - 1 then j else cols - 1) else 0))
  }

  /** Wall triangles of a fully valid `rows` x `cols` grid from rows 0 .. i - 1. */
  function FramePrefix(rows: int, cols: int, i: int): int {
    var r := if i <= rows - 1 then i else rows - 1;
    2 * ((if cols >= 2 then 2 * r else r)
       + (if i >= 1 then cols - 1 else 0) + (if i == rows && rows >= 2 then cols - 1 else 0))
  }

  lemma FrameRowStep(rows: int, cols: int, i: int, j: int)
    requires 0 <= j < cols
    ensures FrameRow(rows, cols, i, j + 1)
         == FrameRow(rows, cols, i, j)
          + (if i < rows - 1 && (j == 0 || j == cols - 1) then 2 else 0)
          + (if j < cols - 1 && (i == 0 || i == rows - 1) then 2 else 0)
  {
  }

  lemma FramePrefixStep(rows: int, cols: int, i: int)
    requires 0 <= i < rows && 1 <= cols
    ensures FramePrefix(rows, cols, i + 1) == FramePrefix(rows, cols, i) + FrameRow(rows, cols, i, cols)
    ensures FrameRow(rows, cols, i + 1, 0) == 0
  {
  }

  lemma {:induction false} AllValidWallRow(m: Mask, i: nat, j: nat)
    requires AllValid(m) && m.cols >= 1 && i < m.rows && j <= m.cols
    ensures |Scan(m, Walls, i, j)| == |Scan(m, Walls, i, 0)| + FrameRow(m.rows, m.cols, i, j)
    decreases j
  {
    if j > 0 {
      AllValidWallRow(m, i, j - 1);
      AllValidSites(m, i, j - 1);
      FrameRowStep(m.rows, m.cols, i, j - 1);
      assert |Scan(m, Walls, i, j)| == |Scan(m, Walls, i, j - 1)| + |WallsAt(m, i, j - 1)|;
    }
  }

  lemma {:induction false} AllValidWallRows(m: Mask, i: nat)
    requires AllValid(m) && m.rows >= 1 && m.cols >= 1 && i <= m.rows
    ensures |Scan(m, Walls, i, 0)| == FramePrefix(m.rows, m.cols, i)
  {
    if i > 0 {
      AllValidWallRows(m, i - 1);
      AllValidWallRow(m, i - 1, m.cols);
      FramePrefixStep(m.rows, m.cols, i - 1);
      assert Scan(m, Walls, i, 0) == Scan(m, Walls, i - 1, m.cols);
    }
  }

  /** In a fully valid R x C grid the walls are one quad per frame pair: R - 1
      pairs down each of the first and last columns and C - 1 along each of the
      first and last rows (a single column or row counted once). */
  lemma AllValidWallCount(m: Mask)
    requires AllValid(m) && m.rows >= 1 && m.cols >= 1
    ensures |StageTris(m, Walls)|
         == 2 * ((if m.cols >= 2 then 2 * (m.rows - 1) else m.rows - 1)
               + (if m.rows >= 2 then 2 * (m.cols - 1) else m.cols - 1))
  {
    AllValidWallRows(m, m.rows);
  }

  /** A fully valid R x C grid with R, C >= 2 gets 2(R - 1) + 2(C - 1) wall quads. */
  lemma RectangleWalls(m: Mask)
    requires AllValid(m) && m.rows >= 2 && m.cols >= 2
    ensures |StageTris(m, Walls)| == 2 * (2 * (m.rows - 1) + 2 * (m.cols - 1))
  {
    AllValidWallCount(m);
  }

  lemma {:induction false} AllValidRowCount(m: Mask, i: nat, j: nat)
    requires AllValid(m) && i < m.rows && j <= m.cols
    ensures RowCount(m, i, j) == j
    decreases j
  {
    if j > 0 {
      AllValidRowCount(m, i, j - 1);
      assert IsValid(m, i, j - 1);
    }
  }

  /** A fully valid 1 x N strip: 2N vertices, N - 1 wall quads and no other
      triangles. */
  lemma StripMesh(heightMap: Grid<real>, valid: Mask, scale: real, baseMap: Option<Grid<real>>)
    requires GoodInput(heightMap, valid, baseMap)
    requires AllValid(valid) && valid.rows == 1 && valid.cols >= 1
    ensures var mesh := MeshOf(heightMap, valid, scale, baseMap);
      && |mesh.vertices| == 2 * valid.cols
      && StageTris(valid, Surface) == [] && StageTris(valid, Base) == []
      && |mesh.triangles| == |StageTris(valid, Walls)| == 2 * (valid.cols - 1)
  {
    ThinGridHasNoQuads(valid);
    AllValidWallCount(valid);
    MeshVertices(heightMap, valid, scale, baseMap);
    assert RowCount(valid, 0, valid.cols) == valid.cols by {
      AllValidRowCount(valid, 0, valid.cols);
    }
  }

  /** A fully valid 2 x 2 grid gets no surface triangles (its one block starts at
      vertex 0), two base triangles and four wall quads: ten triangles. */
  lemma TwoByTwo(m: Mask)
    requires AllValid(m) && m.rows == 2 && m.cols == 2
    ensures |StageTris(m, Surface)| == 0 && |StageTris(m, Base)| == 2 && |StageTris(m, Walls)| == 8
  {
    AllValidWallCount(m);
    QuadTriangles(m, 0, 0);
    assert IsValid(m, 0, 0) && IsValid(m, 1, 0) && IsValid(m, 0, 1) && IsValid(m, 1, 1);
    assert StageTris(m, Surface) == Scan(m, Surface, 0, 1) == Emit(m, Surface, 0, 0);
    assert StageTris(m, Base) == Scan(m, Base, 0, 1) == Emit(m, Base, 0, 0);
  }
}
