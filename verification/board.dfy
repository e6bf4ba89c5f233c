/** The game board: a rows x columns grid of cells, row 0 at the bottom,
    each cell empty or holding one chip. */
module Boards {
  import opened Options
  import opened Chips

  type Cell = Option<ChipColor>

  /** A (row, column) position on the board. */
  datatype Position = Position(row: nat, column: nat)

  /** Number of occupied cells in a row. */
  function RowCount(row: seq<Cell>): (n: nat)
    ensures n <= |row|
  {
    if row == [] then 0 else (if row[0].Some? then 1 else 0) + RowCount(row[1..])
  }

  /** Number of occupied cells in a grid. */
  function GridCount(grid: seq<seq<Cell>>): (n: nat)
  {
    if grid == [] then 0 else RowCount(grid[0]) + GridCount(grid[1..])
  }

  /** A row is counted as full exactly when every cell in it is occupied. */
  lemma {:induction false} RowCountFull(row: seq<Cell>)
    ensures RowCount(row) == |row| <==> forall i :: 0 <= i < |row| ==> row[i].Some?
  {
    if row != [] {
      RowCountFull(row[1..]);
      assert forall i :: 1 <= i < |row| ==> row[i] == row[1..][i - 1];
    }
  }

  /** A row without chips counts zero. */
  lemma {:induction false} RowCountEmpty(row: seq<Cell>)
    requires forall i :: 0 <= i < |row| ==> row[i].None?
    ensures RowCount(row) == 0
  {
    if row != [] {
      RowCountEmpty(row[1..]);
    }
  }

  /** Occupying one empty cell of a row adds one to its count. */
  lemma {:induction false} RowCountSet(row: seq<Cell>, c: nat, x: ChipColor)
    requires c < |row| && row[c].None?
    ensures RowCount(row[c := Some(x)]) == RowCount(row) + 1
  {
    if c == 0 {
      assert row[c := Some(x)][1..] == row[1..];
    } else {
      assert row[c := Some(x)][1..] == row[1..][c - 1 := Some(x)];
      RowCountSet(row[1..], c - 1, x);
    }
  }

  /** Occupying one empty cell of a grid adds one to its count. */
  lemma {:induction false} GridCountSet(grid: seq<seq<Cell>>, r: nat, c: nat, x: ChipColor)
    requires r < |grid| && c < |grid[r]| && grid[r][c].None?
    ensures GridCount(grid[r := grid[r][c := Some(x)]]) == GridCount(grid) + 1
  {
    var updated := grid[r := grid[r][c := Some(x)]];
    if r == 0 {
      assert updated[1..] == grid[1..];
      RowCountSet(grid[0], c, x);
    } else {
      assert updated[1..] == grid[1..][r - 1 := grid[r][c := Some(x)]];
      GridCountSet(grid[1..], r - 1, c, x);
    }
  }

  /** A grid without chips counts zero. */
  lemma {:induction false} GridCountEmpty(grid: seq<seq<Cell>>)
    requires forall r, c :: 0 <= r < |grid| && 0 <= c < |grid[r]| ==> grid[r][c].None?
    ensures GridCount(grid) == 0
  {
    if grid != [] {
      RowCountEmpty(grid[0]);
      GridCountEmpty(grid[1..]);
    }
  }

  /** A grid of equal-length rows holds at most rows x columns chips, and holds
      exactly that many only when every cell is occupied. */
  lemma {:induction false} GridCountBound(grid: seq<seq<Cell>>, cols: nat)
    requires forall r :: 0 <= r < |grid| ==> |grid[r]| == cols
    ensures GridCount(grid) <= |grid| * cols
    ensures GridCount(grid) == |grid| * cols <==>
              forall r, c :: 0 <= r < |grid| && 0 <= c < cols ==> grid[r][c].Some?
  {
    if grid != [] {
      var rest := grid[1..];
      GridCountBound(rest, cols);
      RowCountFull(grid[0]);
      assert |grid| * cols == cols + |rest| * cols;
      if GridCount(grid) == |grid| * cols {
        forall r, c | 0 <= r < |grid| && 0 <= c < cols ensures grid[r][c].Some? {
          if r > 0 {
            assert grid[r] == rest[r - 1];
          }
        }
      }
      if forall r, c :: 0 <= r < |grid| && 0 <= c < cols ==> grid[r][c].Some? {
        forall r, c | 0 <= r < |rest| && 0 <= c < cols ensures rest[r][c].Some? {
          assert rest[r] == grid[r + 1];
        }
      }
    }
  }

  datatype Board = Board(rows: nat, cols: nat, cells: seq<seq<Cell>>) {

    /** The grid has the announced dimensions; cells[row][column]. */
    ghost predicate WellFormed() {
      |cells| == rows && forall r :: 0 <= r < rows ==> |cells[r]| == cols
    }

    /** Chips rest on one another: below an occupied cell every cell is occupied. */
    ghost predicate Stacked()
      requires WellFormed()
    {
      forall r1, r2, c :: 0 <= r1 < r2 < rows && 0 <= c < cols && cells[r2][c].Some? ==> cells[r1][c].Some?
    }

    ghost predicate Valid() {
      WellFormed() && Stacked()
    }

    /** The cell at (r, c), or None outside the grid. */
    function CellAt(r: int, c: int): (cell: Cell) {
      if 0 <= r < |cells| && 0 <= c < |cells[r]| then cells[r][c] else None
    }

    /** The chip colour at (r, c); the transparent "no disc" colour for an
        empty cell or a position outside the grid. */
    function GetChip(r: int, c: int): (color: ChipColor) {
      match CellAt(r, c)
      case None => Transparent
      case Some(color) => color
    }

    function NbPositions(): (n: nat) {
      rows * cols
    }

    /** Number of occupied cells. */
    function FilledCount(): (n: nat) {
      GridCount(cells)
    }

    /** Every cell is occupied. */
    ghost predicate IsFull()
      requires WellFormed()
    {
      forall r, c :: 0 <= r < rows && 0 <= c < cols ==> cells[r][c].Some?
    }

    /** No empty row remains in column c. */
    predicate IsColumnFull(c: nat)
      requires WellFormed() && c < cols
    {
      forall r :: 0 <= r < rows ==> cells[r][c].Some?
    }

    /** The lowest empty row of column c at or above row r (rows if none). */
    function FirstEmptyFrom(c: nat, r: nat): (e: nat)
      requires WellFormed() && c < cols && r <= rows
      decreases rows - r
      ensures r <= e <= rows
      ensures forall k :: r <= k < e ==> cells[k][c].Some?
      ensures e < rows ==> cells[e][c].None?
    {
      if r == rows then r
      else if cells[r][c].None? then r
      else FirstEmptyFrom(c, r + 1)
    }

    /** The row a chip dropped into column c lands in: the lowest empty one. */
    function FirstEmptyRow(c: nat): (e: nat)
      requires WellFormed() && c < cols
      ensures e <= rows
      ensures forall k :: 0 <= k < e ==> cells[k][c].Some?
      ensures e < rows ==> cells[e][c].None?
      ensures e == rows <==> IsColumnFull(c)
    {
      FirstEmptyFrom(c, 0)
    }

    /** With stacked chips, a column is full exactly when its topmost cell is occupied. */
    lemma ColumnFullIffTopOccupied(c: nat)
      requires Valid() && c < cols && rows > 0
      ensures IsColumnFull(c) <==> cells[rows - 1][c].Some?
    {
      if cells[rows - 1][c].Some? {
        forall r | 0 <= r < rows ensures cells[r][c].Some? {
          if r < rows - 1 {
            assert cells[rows - 1][c].Some?;
          }
        }
      }
    }

    /** At most rows x columns chips fit, and exactly that many means the board is full. */
    lemma FilledCountBound()
      requires WellFormed()
      ensures FilledCount() <= NbPositions()
      ensures FilledCount() == NbPositions() <==> IsFull()
    {
      GridCountBound(cells, cols);
    }

    /** Drops a chip of the given colour into column c: the lowest empty cell of
        the column becomes occupied, every other cell keeps its content. */
    function Drop(c: nat, color: ChipColor): (b: Board)
      requires Valid() && c < cols && !IsColumnFull(c)
      ensures b.Valid() && b.rows == rows && b.cols == cols
      ensures FirstEmptyRow(c) < rows && cells[FirstEmptyRow(c)][c].None?
      ensures b.cells[FirstEmptyRow(c)][c] == Some(color)
      ensures forall r, k :: 0 <= r < rows && 0 <= k < cols && (r != FirstEmptyRow(c) || k != c) ==>
                b.cells[r][k] == cells[r][k]
      ensures b.FilledCount() == FilledCount() + 1
    {
      var e := FirstEmptyRow(c);
      GridCountSet(cells, e, c, color);
      var b := Board(rows, cols, cells[e := cells[e][c := Some(color)]]);
      assert forall r :: e < r < rows ==> cells[r][c].None?;
      b
    }
  }

  /** A board of the given dimensions with every cell empty. */
  function EmptyBoard(rows: nat, cols: nat): (b: Board)
    ensures b.Valid() && b.rows == rows && b.cols == cols
    ensures forall r, c :: b.CellAt(r, c) == None
    ensures b.FilledCount() == 0
  {
    var row: seq<Cell> := seq(cols, _ => None);
    var b := Board(rows, cols, seq(rows, _ => row));
    GridCountEmpty(b.cells);
    b
  }
}
