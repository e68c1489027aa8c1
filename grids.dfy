/** Rectangular grids, the validity mask that stands in for the source's NaN
    sentinel, and the row-major ranking of valid cells that the vertex
    allocation of topogmesh/mesh_generator.py produces. */
module Grids {

  datatype Option<T> = None | Some(value: T)

  /** A `rows` x `cols` grid stored row by row: `cells[i][j]` is row i, column j.
      The shape is kept explicitly, as numpy keeps it, so that a grid with no
      rows still has a column count. */
  datatype Grid<T> = Grid(rows: nat, cols: nat, cells: seq<seq<T>>)

  /** The stored rows agree with the declared shape. */
  predicate Shaped<T>(g: Grid<T>) {
    |g.cells| == g.rows && forall i :: 0 <= i < |g.cells| ==> |g.cells[i]| == g.cols
  }

  /** `true` marks a cell inside the region to mesh (a non-NaN height). */
  type Mask = Grid<bool>

  /** Cell (i, j) is on the grid and valid. Positions off the grid are never
      valid, which is how the wall rules treat the border. */
  predicate IsValid(m: Mask, i: int, j: int) {
    0 <= i < m.rows && 0 <= j < m.cols && i < |m.cells| && j < |m.cells[i]| && m.cells[i][j]
  }

  /** Number of valid cells among (i, 0), ..., (i, j - 1). */
  function RowCount(m: Mask, i: int, j: nat): nat
    decreases j
  {
    if j == 0 then 0 else RowCount(m, i, j - 1) + (if IsValid(m, i, j - 1) then 1 else 0)
  }

  /** Number of valid cells in rows 0, ..., i - 1. */
  function CountRows(m: Mask, i: nat): nat
  {
    if i == 0 then 0 else CountRows(m, i - 1) + RowCount(m, i - 1, m.cols)
  }

  /** Number of valid cells that come before (i, j) in row-major order. */
  function Rank(m: Mask, i: nat, j: nat): nat
  {
    CountRows(m, i) + RowCount(m, i, j)
  }

  /** Number of valid cells in the whole grid. */
  function ValidCount(m: Mask): nat
  {
    CountRows(m, m.rows)
  }

  /** The index table `vert_idx`: a valid cell's surface-vertex index, -1 elsewhere
      (including off the grid). */
  function Index(m: Mask, i: int, j: int): int
  {
    if IsValid(m, i, j) then Rank(m, i, j) else -1
  }

  /** `(a, b)` comes strictly before `(i, j)` in row-major order. */
  predicate Before(a: int, b: int, i: int, j: int) {
    a < i || (a == i && b < j)
  }

  /** Every cell of the grid is valid. */
  predicate AllValid(m: Mask) {
    forall i, j :: 0 <= i < m.rows && 0 <= j < m.cols ==> IsValid(m, i, j)
  }

  lemma {:induction false} RowCountMonotone(m: Mask, i: int, j: nat, k: nat)
    requires j <= k
    ensures RowCount(m, i, j) <= RowCount(m, i, k) <= RowCount(m, i, j) + (k - j)
    decreases k
  {
    if j < k {
      RowCountMonotone(m, i, j, k - 1);
    }
  }

  lemma {:induction false} CountRowsMonotone(m: Mask, i: nat, k: nat)
    requires i <= k
    ensures CountRows(m, i) <= CountRows(m, k)
    decreases k
  {
    if i < k {
      CountRowsMonotone(m, i, k - 1);
    }
  }

  /** Every valid cell's index lies below the number of valid cells. */
  lemma RankBelowCount(m: Mask, i: nat, j: nat)
    requires IsValid(m, i, j)
    ensures Rank(m, i, j) < ValidCount(m)
  {
    RowCountMonotone(m, i, j + 1, m.cols);
    CountRowsMonotone(m, i + 1, m.rows);
  }

  /** Ranks strictly increase along row-major order over valid cells; in
      particular two distinct valid cells never share an index. */
  lemma RankIncreasing(m: Mask, i: nat, j: nat, i': nat, j': nat)
    requires IsValid(m, i, j) && Before(i, j, i', j')
    ensures Rank(m, i, j) < Rank(m, i', j')
  {
    if i == i' {
      RowCountMonotone(m, i, j + 1, j');
    } else {
      RowCountMonotone(m, i, j + 1, m.cols);
      CountRowsMonotone(m, i + 1, i');
    }
  }

  /** Ranks never decrease along row-major order, valid or not. */
  lemma RankMonotone(m: Mask, i: nat, j: nat, i': nat, j': nat)
    requires Before(i, j, i', j') || (i == i' && j == j')
    requires j <= m.cols
    ensures Rank(m, i, j) <= Rank(m, i', j')
  {
    if i == i' {
      RowCountMonotone(m, i, j, j');
    } else {
      RowCountMonotone(m, i, j, m.cols);
      CountRowsMonotone(m, i + 1, i');
    }
  }

  /** Distinct valid cells have distinct indices, so the index table is an
      injection from valid cells into 0 .. ValidCount(m) - 1. */
  lemma IndexInjective(m: Mask, i: nat, j: nat, i': nat, j': nat)
    requires IsValid(m, i, j) && IsValid(m, i', j') && (i, j) != (i', j')
    ensures Index(m, i, j) != Index(m, i', j')
  {
    if Before(i, j, i', j') {
      RankIncreasing(m, i, j, i', j');
    } else {
      RankIncreasing(m, i', j', i, j);
    }
  }

  /** A row prefix without valid cells counts none. */
  lemma {:induction false} RowCountNone(m: Mask, i: int, j: nat)
    requires forall b :: !IsValid(m, i, b)
    ensures RowCount(m, i, j) == 0
    decreases j
  {
    if j > 0 {
      RowCountNone(m, i, j - 1);
    }
  }

  /** Rows without valid cells count none. */
  lemma {:induction false} CountRowsNone(m: Mask, i: nat)
    requires forall a, b :: !IsValid(m, a, b)
    ensures CountRows(m, i) == 0
    decreases i
  {
    if i > 0 {
      CountRowsNone(m, i - 1);
      RowCountNone(m, i - 1, m.cols);
    }
  }

  /** The valid-cell count (`base_offset`) is 0 exactly when no cell is valid. */
  lemma NoValidCells(m: Mask)
    ensures ValidCount(m) == 0 <==> forall a, b :: !IsValid(m, a, b)
  {
    if ValidCount(m) == 0 {
      forall a, b ensures !IsValid(m, a, b) {
        if IsValid(m, a, b) {
          RankBelowCount(m, a, b);
        }
      }
    }
    if forall a, b :: !IsValid(m, a, b) {
      CountRowsNone(m, m.rows);
    }
  }
}
