/** Win resolution: whether the most recent drop completed a line of
    in-a-row chips of its colour along one of the four axes. */
module Resolution {
  import opened Options
  import opened Chips
  import opened Boards

  /** The four axes the win check scans. */
  datatype Direction = Horizontal | Vertical | Diagonal | AntiDiagonal

  /** The (row, column) reached from p after i steps along d (i may be negative). */
  function Along(p: Position, d: Direction, i: int): (rc: (int, int)) {
    match d
    case Horizontal => (p.row, p.column + i)
    case Vertical => (p.row + i, p.column)
    case Diagonal => (p.row + i, p.column + i)
    case AntiDiagonal => (p.row + i, p.column - i)
  }

  function CellAlong(b: Board, p: Position, d: Direction, i: int): (cell: Cell) {
    var (r, c) := Along(p, d, i);
    b.CellAt(r, c)
  }

  /** The n cells at steps lo .. lo + n - 1 from p along d all hold a chip of colour color. */
  predicate RunAt(b: Board, p: Position, d: Direction, lo: int, n: nat, color: ChipColor) {
    forall i :: lo <= i < lo + n ==> CellAlong(b, p, d, i) == Some(color)
  }

  /** Some run of n chips of colour color along d passes through p. */
  predicate LineThrough(b: Board, p: Position, d: Direction, n: nat, color: ChipColor) {
    exists lo :: -(n as int) < lo <= 0 && RunAt(b, p, d, lo, n, color)
  }

  /** The game is won: the last taken position holds a chip that lies on a line
      of at least inARow chips of its colour, horizontally, vertically or diagonally. */
  predicate Won(b: Board, inARow: nat, taken: seq<Position>)
    ensures Won(b, inARow, taken) ==>
              && inARow > 0 && |taken| > 0
              && b.CellAt(taken[|taken| - 1].row, taken[|taken| - 1].column).Some?
  {
    && |taken| > 0
    && var p := taken[|taken| - 1];
       match b.CellAt(p.row, p.column)
       case None => false
       case Some(color) =>
         || LineThrough(b, p, Horizontal, inARow, color)
         || LineThrough(b, p, Vertical, inARow, color)
         || LineThrough(b, p, Diagonal, inARow, color)
         || LineThrough(b, p, AntiDiagonal, inARow, color)
  }

  /** inARow chips of one colour stacked in a column, the last taken position on
      top of them, win the game. */
  lemma VerticalRunWins(b: Board, inARow: nat, taken: seq<Position>, color: ChipColor)
    requires inARow > 0 && |taken| > 0
    requires var p := taken[|taken| - 1];
             p.row + 1 >= inARow &&
             forall r :: p.row - inARow < r <= p.row ==> b.CellAt(r, p.column) == Some(color)
    ensures Won(b, inARow, taken)
  {
    var p := taken[|taken| - 1];
    var lo := 1 - inARow;
    assert b.CellAt(p.row, p.column) == Some(color);
    forall i | lo <= i < lo + inARow ensures CellAlong(b, p, Vertical, i) == Some(color) {
      assert b.CellAt(p.row + i, p.column) == Some(color);
    }
    assert RunAt(b, p, Vertical, lo, inARow, color);
  }

  /** A chip whose colour occurs nowhere else on the board cannot complete a
      line of two or more: in particular a player's first chip never wins. */
  lemma LoneChipDoesNotWin(b: Board, inARow: nat, taken: seq<Position>)
    requires inARow >= 2 && |taken| > 0
    requires var p := taken[|taken| - 1];
             forall r: int, c: int :: (r != p.row || c != p.column) ==>
               b.CellAt(r, c) != b.CellAt(p.row, p.column)
    ensures !Won(b, inARow, taken)
  {
    var p := taken[|taken| - 1];
    if b.CellAt(p.row, p.column).Some? {
      var color := b.CellAt(p.row, p.column).value;
      forall d, lo | -(inARow as int) < lo <= 0 ensures !RunAt(b, p, d, lo, inARow, color) {
        var i := if lo < 0 then lo else 1;
        var (r, c) := Along(p, d, i);
        assert r != p.row || c != p.column;
        assert CellAlong(b, p, d, i) != Some(color);
      }
    }
  }

  /** If all the chips of a colour lie in one column, in its k lowest rows, and
      k < inARow, then a chip of that colour in that column is not a win: the
      column holds fewer than inARow of them and no other axis holds a second one. */
  lemma ShortColumnDoesNotWin(b: Board, inARow: nat, taken: seq<Position>, color: ChipColor, k: nat)
    requires inARow >= 2 && k < inARow && |taken| > 0
    requires var p := taken[|taken| - 1];
             forall r: int, c: int :: b.CellAt(r, c) == Some(color) ==> c == p.column && 0 <= r < k
    ensures var p := taken[|taken| - 1];
            b.CellAt(p.row, p.column) == Some(color) ==> !Won(b, inARow, taken)
  {
    var p := taken[|taken| - 1];
    if b.CellAt(p.row, p.column) == Some(color) {
      forall d, lo | -(inARow as int) < lo <= 0 ensures !RunAt(b, p, d, lo, inARow, color) {
        if d == Vertical {
          var i := if p.row + lo < 0 then lo else lo + inARow - 1;
          assert CellAlong(b, p, d, i) != Some(color);
        } else {
          var i := if lo < 0 then lo else 1;
          assert CellAlong(b, p, d, i) != Some(color);
        }
      }
    }
  }
}
