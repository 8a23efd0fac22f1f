/**
 * The grid layout: with n = ceil(sqrt(count)) cells per side, image i sits
 * in column i mod n of row i div n (pixplot.py's get_grid_projection and
 * the `grid` layout of assets/js/tsne.js).
 */
module GridLayout {
  import opened IntMath

  datatype Cell = Cell(x: nat, y: nat)

  /** Row-major placement of item i on a grid with n columns. */
  function GridCell(i: nat, n: nat): (c: Cell)
    requires n >= 1
    ensures c.x < n
    ensures c.y * n + c.x == i
  {
    Cell(i % n, i / n)
  }

  /** Two items share a cell only when they are the same item. */
  lemma GridCellInjective(i: nat, j: nat, n: nat)
    requires n >= 1 && GridCell(i, n) == GridCell(j, n)
    ensures i == j
  {
  }

  /** On the ceil(sqrt(count)) grid every one of the count items has a row below n. */
  lemma GridCellInRange(i: nat, count: nat)
    requires i < count
    ensures var n := CeilSqrt(count);
            n >= 1 && GridCell(i, n).x < n && GridCell(i, n).y < n
  {
    var n := CeilSqrt(count);
    var c := GridCell(i, n);
    if c.y >= n {
      MulMonotone(c.y, n, n);
      assert false;
    }
  }

  /** get_grid_projection: one [x, y] pair per path, in path order. */
  method GridProjection(count: nat) returns (cells: seq<Cell>)
    ensures |cells| == count
    ensures forall i :: 0 <= i < count ==> cells[i] == GridCell(i, CeilSqrt(count))
    ensures forall i, j :: 0 <= i < j < count ==> cells[i] != cells[j]
    ensures forall i :: 0 <= i < count ==>
              cells[i].x < CeilSqrt(count) && cells[i].y < CeilSqrt(count)
  {
    var n := CeilSqrt(count);
    cells := [];
    var i := 0;
    while i < count
      invariant 0 <= i <= count
      invariant |cells| == i
      invariant forall k :: 0 <= k < i ==> cells[k] == GridCell(k, n)
      invariant forall k :: 0 <= k < i ==> cells[k].x < n && cells[k].y < n
    {
      GridCellInRange(i, count);
      cells := cells + [Cell(i % n, i / n)];
      i := i + 1;
    }
    forall i, j | 0 <= i < j < count
      ensures cells[i] != cells[j]
    {
      if cells[i] == cells[j] {
        GridCellInjective(i, j, n);
      }
    }
  }
}
