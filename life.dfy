/**
 The cell grid of Conway's Game of Life and its synchronous generation step
 (rule B3/S23) over a bounded, non-wrapping `col x row` board.
 */
module Life {

  /** A grid is indexed `m[x][y]`: `x` is the column (`0 <= x < col`), `y` the row. */
  type Grid = seq<seq<int>>

  /** `m` has shape `(col, row)` and every cell is dead (0) or alive (1). */
  predicate IsGrid(m: Grid, col: nat, row: nat) {
    |m| == col &&
    (forall x :: 0 <= x < col ==> |m[x]| == row) &&
    (forall x, y :: 0 <= x < col && 0 <= y < row ==> m[x][y] == 0 || m[x][y] == 1)
  }

  /** The all-dead grid of shape `(col, row)`. */
  function Dead(col: nat, row: nat): (r: Grid)
    ensures IsGrid(r, col, row)
    ensures forall x, y :: 0 <= x < col && 0 <= y < row ==> r[x][y] == 0
  {
    seq(col, _ => seq(row, _ => 0))
  }

  // ---------------------------------------------------------------------------
  // The neighbour window
  // ---------------------------------------------------------------------------

  /** Start of the neighbour slice along one axis: one below `i`, but never below 0. */
  function Lower(i: nat): nat {
    if i > 0 then i - 1 else i
  }

  /** End (exclusive) of the neighbour slice along an axis of length `n`: a slice stop
      past the end of the axis is cut back to the axis length. */
  function Upper(i: nat, n: nat): nat {
    if i + 2 <= n then i + 2 else n
  }

  /** Sum of `r[lo..hi]`. */
  function RowSum(r: seq<int>, lo: nat, hi: nat): int
    requires lo <= hi <= |r|
    decreases hi - lo
  {
    if lo == hi then 0 else r[lo] + RowSum(r, lo + 1, hi)
  }

  /** Sum of the rectangle `[xlo, xhi) x [ylo, yhi)` of `m`. */
  function WindowSum(m: Grid, xlo: nat, xhi: nat, ylo: nat, yhi: nat): int
    requires xlo <= xhi <= |m| && ylo <= yhi
    requires forall i :: xlo <= i < xhi ==> yhi <= |m[i]|
    decreases xhi - xlo
  {
    if xlo == xhi then 0 else RowSum(m[xlo], ylo, yhi) + WindowSum(m, xlo + 1, xhi, ylo, yhi)
  }

  /** The live cells in the clamped 3x3 window around `(x, y)`, minus the cell itself:
      exactly the live cells among the eight on-grid neighbours, so between 0 and 8. */
  function AliveNeighbours(m: Grid, col: nat, row: nat, x: nat, y: nat): (r: int)
    requires IsGrid(m, col, row) && x < col && y < row
    ensures r == NeighbourCount(m, x, y)
    ensures 0 <= r <= 8
  {
    WindowIsNeighbourhood(m, col, row, x, y);
    WindowSum(m, Lower(x), Upper(x, col), Lower(y), Upper(y, row)) - m[x][y]
  }

  /** Entry `j` of a row, or 0 for a position outside it. */
  function Entry(r: seq<int>, j: int): int {
    if 0 <= j < |r| then r[j] else 0
  }

  /** The value of cell `(i, j)`, or 0 for a position outside the grid. */
  function CellAt(m: Grid, i: int, j: int): int {
    if 0 <= i < |m| then Entry(m[i], j) else 0
  }

  /** Reference definition: the eight surrounding positions, each counted only when it
      lies on the grid (no wraparound). */
  function NeighbourCount(m: Grid, x: int, y: int): int {
    CellAt(m, x - 1, y - 1) + CellAt(m, x - 1, y) + CellAt(m, x - 1, y + 1) +
    CellAt(m, x, y - 1) + CellAt(m, x, y + 1) +
    CellAt(m, x + 1, y - 1) + CellAt(m, x + 1, y) + CellAt(m, x + 1, y + 1)
  }

  // ---------------------------------------------------------------------------
  // The cell rule and the generation step
  // ---------------------------------------------------------------------------

  /** The next value of a cell holding `cell` with `n` live neighbours, decided in the
      order the source tests it; the result is exactly rule B3/S23. */
  function NextCell(cell: int, n: int): (r: int)
    ensures r == 0 || r == 1
    ensures r == 1 <==> n == 3 || (cell == 1 && n == 2)
  {
    if (cell == 1 && n < 2) || n > 3 then 0
    else if n == 3 || (cell == 1 && (2 == n || n == 3)) then 1
    else 0
  }

  /** The next value of cell `(x, y)`, read from the unmodified grid `m`. */
  function NextCellAt(m: Grid, col: nat, row: nat, x: nat, y: nat): int
    requires IsGrid(m, col, row) && x < col && y < row
  {
    NextCell(m[x][y], AliveNeighbours(m, col, row, x, y))
  }

  /** The next generation: every cell computed from `m` alone. */
  function Step(m: Grid, col: nat, row: nat): (r: Grid)
    requires IsGrid(m, col, row)
    ensures IsGrid(r, col, row)
  {
    seq(col, x requires 0 <= x < col =>
      seq(row, y requires 0 <= y < row => NextCellAt(m, col, row, x, y)))
  }

  /** Computes the next generation into a freshly allocated, zero-filled board, visiting
      the cells column by column; a dead cell with fewer than three live neighbours
      matches neither test of the rule and is left at its initial 0. */
  method NextGeneration(col: nat, matrix: Grid, row: nat) returns (result: Grid)
    requires IsGrid(matrix, col, row)
    ensures IsGrid(result, col, row)
    ensures forall x, y :: 0 <= x < col && 0 <= y < row ==>
      result[x][y] == NextCell(matrix[x][y], AliveNeighbours(matrix, col, row, x, y))
    ensures result == Step(matrix, col, row)
  {
    var matrixNew := new int[col, row]((i, j) => 0);
    for x := 0 to col
      invariant forall i, j :: 0 <= i < x && 0 <= j < row ==>
        matrixNew[i, j] == NextCellAt(matrix, col, row, i, j)
      invariant forall i, j :: x <= i < col && 0 <= j < row ==> matrixNew[i, j] == Dead(col, row)[i][j]
    {
      for y := 0 to row
        invariant forall i, j :: 0 <= i < x && 0 <= j < row ==>
          matrixNew[i, j] == NextCellAt(matrix, col, row, i, j)
        invariant forall j :: 0 <= j < y ==> matrixNew[x, j] == NextCellAt(matrix, col, row, x, j)
        invariant forall j :: y <= j < row ==> matrixNew[x, j] == 0
        invariant forall i, j :: x < i < col && 0 <= j < row ==> matrixNew[i, j] == 0
      {
        var sumXLower := if x > 0 then x - 1 else x;
        var sumYLower := if y > 0 then y - 1 else y;
        var aliveNeighbours :=
          WindowSum(matrix, sumXLower, Upper(x, col), sumYLower, Upper(y, row)) - matrix[x][y];
        if (matrix[x][y] == 1 && aliveNeighbours < 2) || aliveNeighbours > 3 {
          matrixNew[x, y] := 0;
        } else if aliveNeighbours == 3 || (matrix[x][y] == 1 && (2 == aliveNeighbours || aliveNeighbours == 3)) {
          matrixNew[x, y] := 1;
        }
      }
    }
    result := seq(col, i requires 0 <= i < col reads matrixNew =>
      seq(row, j requires 0 <= j < row reads matrixNew => matrixNew[i, j]));
    GridsEqual(result, Step(matrix, col, row), col, row);
  }

  // ---------------------------------------------------------------------------
  // Properties of the window and the step
  // ---------------------------------------------------------------------------

  /** Two grids of one shape are equal when they agree cell by cell. */
  lemma GridsEqual(a: Grid, b: Grid, col: nat, row: nat)
    requires |a| == col && |b| == col
    requires forall x :: 0 <= x < col ==> |a[x]| == row && |b[x]| == row
    requires forall x, y :: 0 <= x < col && 0 <= y < row ==> a[x][y] == b[x][y]
    ensures a == b
  {
    forall x | 0 <= x < col
      ensures a[x] == b[x]
    {
      assert forall y :: 0 <= y < row ==> a[x][y] == b[x][y];
    }
  }

  /** The clamped slice of one row around `y` covers `y - 1`, `y`, `y + 1`, with the
      positions past either end contributing nothing. */
  lemma RowWindow(r: seq<int>, y: nat)
    requires y < |r|
    ensures RowSum(r, Lower(y), Upper(y, |r|)) == Entry(r, y - 1) + r[y] + Entry(r, y + 1)
  {
    var hi := Upper(y, |r|);
    assert RowSum(r, y, hi) == r[y] + RowSum(r, y + 1, hi);
    if hi == y + 2 {
      assert RowSum(r, y + 1, hi) == r[y + 1] + RowSum(r, y + 2, hi);
    }
    if y > 0 {
      assert RowSum(r, y - 1, hi) == r[y - 1] + RowSum(r, y, hi);
    }
  }

  /** The window sum is the sum of the three clamped rows `x - 1`, `x`, `x + 1`. */
  lemma ColumnWindow(m: Grid, col: nat, row: nat, x: nat, ylo: nat, yhi: nat)
    requires IsGrid(m, col, row) && x < col && ylo <= yhi <= row
    ensures WindowSum(m, Lower(x), Upper(x, col), ylo, yhi) ==
      (if x > 0 then RowSum(m[x - 1], ylo, yhi) else 0) +
      RowSum(m[x], ylo, yhi) +
      (if x + 1 < col then RowSum(m[x + 1], ylo, yhi) else 0)
  {
    var hi := Upper(x, col);
    assert WindowSum(m, x, hi, ylo, yhi) == RowSum(m[x], ylo, yhi) + WindowSum(m, x + 1, hi, ylo, yhi);
    if hi == x + 2 {
      assert WindowSum(m, x + 1, hi, ylo, yhi) == RowSum(m[x + 1], ylo, yhi) + WindowSum(m, x + 2, hi, ylo, yhi);
    }
    if x > 0 {
      assert WindowSum(m, x - 1, hi, ylo, yhi) == RowSum(m[x - 1], ylo, yhi) + WindowSum(m, x, hi, ylo, yhi);
    }
  }

  /** The clamped 3x3 slice around `(x, y)` sums to the cell itself plus the live cells
      among its eight on-grid neighbours. */
  lemma WindowIsNeighbourhood(m: Grid, col: nat, row: nat, x: nat, y: nat)
    requires IsGrid(m, col, row) && x < col && y < row
    ensures WindowSum(m, Lower(x), Upper(x, col), Lower(y), Upper(y, row)) == m[x][y] + NeighbourCount(m, x, y)
  {
    ColumnWindow(m, col, row, x, Lower(y), Upper(y, row));
    RowWindow(m[x], y);
    if x > 0 {
      RowWindow(m[x - 1], y);
    }
    if x + 1 < col {
      RowWindow(m[x + 1], y);
    }
  }

  /** The next value of a cell depends only on the cells of its clamped 3x3 window:
      two grids that agree there give the same count and the same next value. */
  lemma NextCellIsLocal(m: Grid, m': Grid, col: nat, row: nat, x: nat, y: nat)
    requires IsGrid(m, col, row) && IsGrid(m', col, row) && x < col && y < row
    requires forall i, j :: 0 <= i < col && 0 <= j < row && x - 1 <= i <= x + 1 && y - 1 <= j <= y + 1 ==>
      m[i][j] == m'[i][j]
    ensures AliveNeighbours(m, col, row, x, y) == AliveNeighbours(m', col, row, x, y)
    ensures Step(m, col, row)[x][y] == Step(m', col, row)[x][y]
  {
  }

  /** No wraparound: a cell in the first column is not affected by the last column when
      the board is at least three columns wide. */
  lemma FirstColumnIgnoresLastColumn(m: Grid, m': Grid, col: nat, row: nat, y: nat)
    requires IsGrid(m, col, row) && IsGrid(m', col, row) && 3 <= col && y < row
    requires forall i, j :: 0 <= i < col - 1 && 0 <= j < row ==> m[i][j] == m'[i][j]
    ensures Step(m, col, row)[0][y] == Step(m', col, row)[0][y]
  {
  }

  /** A corner cell has only three on-grid neighbours. */
  lemma CornerSeesThree(m: Grid, col: nat, row: nat)
    requires IsGrid(m, col, row) && 2 <= col && 2 <= row
    ensures AliveNeighbours(m, col, row, 0, 0) == m[0][1] + m[1][0] + m[1][1]
  {
  }

  /** The all-dead grid is a fixed point of the step. */
  lemma DeadIsFixedPoint(col: nat, row: nat)
    ensures Step(Dead(col, row), col, row) == Dead(col, row)
  {
    var d := Dead(col, row);
    assert forall x, y :: 0 <= x < col && 0 <= y < row ==> Step(d, col, row)[x][y] == 0;
    GridsEqual(Step(d, col, row), d, col, row);
  }

  /** A live cell whose window holds no other live cell dies. */
  lemma LoneCellDies(m: Grid, col: nat, row: nat, x: nat, y: nat)
    requires IsGrid(m, col, row) && x < col && y < row && m[x][y] == 1
    requires forall i, j ::
      0 <= i < col && 0 <= j < row && x - 1 <= i <= x + 1 && y - 1 <= j <= y + 1 && (i != x || j != y) ==>
      m[i][j] == 0
    ensures Step(m, col, row)[x][y] == 0
  {
  }

  /** Each cell of the next generation is the rule applied to the reference count. */
  lemma StepByNeighbourCount(m: Grid, col: nat, row: nat, x: nat, y: nat)
    requires IsGrid(m, col, row) && x < col && y < row
    ensures Step(m, col, row)[x][y] == NextCell(m[x][y], NeighbourCount(m, x, y))
  {
  }

  /** A 3x3 board whose only live cell is the centre becomes all dead. */
  lemma IsolatedCentreDies()
    ensures Step([[0, 0, 0], [0, 1, 0], [0, 0, 0]], 3, 3) == Dead(3, 3)
  {
    var m: Grid := [[0, 0, 0], [0, 1, 0], [0, 0, 0]];
    forall x, y | 0 <= x < 3 && 0 <= y < 3
      ensures Step(m, 3, 3)[x][y] == 0
    {
      StepByNeighbourCount(m, 3, 3, x, y);
    }
    GridsEqual(Step(m, 3, 3), Dead(3, 3), 3, 3);
  }

  /** A line of three live cells along `x` (drawn horizontally) turns into the line
      along `y` (drawn vertically). */
  lemma BlinkerAlongXTurns()
    ensures Step([[0, 1, 0], [0, 1, 0], [0, 1, 0]], 3, 3) == [[0, 0, 0], [1, 1, 1], [0, 0, 0]]
  {
    var alongX: Grid := [[0, 1, 0], [0, 1, 0], [0, 1, 0]];
    var alongY: Grid := [[0, 0, 0], [1, 1, 1], [0, 0, 0]];
    forall x, y | 0 <= x < 3 && 0 <= y < 3
      ensures Step(alongX, 3, 3)[x][y] == alongY[x][y]
    {
      StepByNeighbourCount(alongX, 3, 3, x, y);
    }
    GridsEqual(Step(alongX, 3, 3), alongY, 3, 3);
  }

  /** The line along `y` (drawn vertically) turns back into the line along `x`. */
  lemma BlinkerAlongYTurns()
    ensures Step([[0, 0, 0], [1, 1, 1], [0, 0, 0]], 3, 3) == [[0, 1, 0], [0, 1, 0], [0, 1, 0]]
  {
    var alongX: Grid := [[0, 1, 0], [0, 1, 0], [0, 1, 0]];
    var alongY: Grid := [[0, 0, 0], [1, 1, 1], [0, 0, 0]];
    forall x, y | 0 <= x < 3 && 0 <= y < 3
      ensures Step(alongY, 3, 3)[x][y] == alongX[x][y]
    {
      StepByNeighbourCount(alongY, 3, 3, x, y);
    }
    GridsEqual(Step(alongY, 3, 3), alongX, 3, 3);
  }

  /** The blinker oscillates with period 2. */
  lemma BlinkerOscillates()
    ensures var v: Grid := [[0, 1, 0], [0, 1, 0], [0, 1, 0]];
      Step(Step(v, 3, 3), 3, 3) == v && Step(v, 3, 3) != v
  {
    BlinkerAlongXTurns();
    BlinkerAlongYTurns();
  }
}
