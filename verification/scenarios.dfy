/** Games played through the model from a freshly constructed one: two players,
    red dropping into column 0 and blue into column 1 on a 6 x 7 grid with
    four in a row, as in the model's own test games. */
module Scenarios {
  import opened Options
  import opened Chips
  import opened Boards
  import opened Resolution
  import opened Commands
  import opened GameModel

  /** A 6 x 7 board whose only chips are k0 of colour x at the bottom of column 0
      and k1 of colour y at the bottom of column 1. */
  ghost predicate TwoColumns(b: Board, x: ChipColor, y: ChipColor, k0: nat, k1: nat) {
    && b.Valid() && b.rows == 6 && b.cols == 7 && k0 <= 6 && k1 <= 6
    && forall r: int, c: int :: b.CellAt(r, c) ==
         if c == 0 && 0 <= r < k0 then Some(x)
         else if c == 1 && 0 <= r < k1 then Some(y)
         else None
  }

  /** A chip dropped into column 0 or 1 of such a board lands on top of that
      column's chips and the board keeps its shape with one more chip there. */
  lemma DropOnTwoColumns(b: Board, x: ChipColor, y: ChipColor, k0: nat, k1: nat, col: nat)
    requires TwoColumns(b, x, y, k0, k1) && col < 2
    requires (if col == 0 then k0 else k1) < 6
    ensures !b.IsColumnFull(col)
    ensures b.FirstEmptyRow(col) == if col == 0 then k0 else k1
    ensures col == 0 ==> TwoColumns(b.Drop(col, x), x, y, k0 + 1, k1)
    ensures col == 1 ==> TwoColumns(b.Drop(col, y), x, y, k0, k1 + 1)
  {
    var k := if col == 0 then k0 else k1;
    assert b.CellAt(k, col) == None;
    assert !b.IsColumnFull(col);
    var e := b.FirstEmptyRow(col);
    assert b.CellAt(e, col) == None;
    forall r | 0 <= r < k ensures b.cells[r][col].Some? {
      assert b.CellAt(r, col).Some?;
    }
    var color := if col == 0 then x else y;
    var d := b.Drop(col, color);
    forall r: int, c: int ensures d.CellAt(r, c) ==
        if c == 0 && 0 <= r < (if col == 0 then k0 + 1 else k0) then Some(x)
        else if c == 1 && 0 <= r < (if col == 1 then k1 + 1 else k1) then Some(y)
        else None
    {
      if 0 <= r < 6 && 0 <= c < 7 && (r != e || c != col) {
        assert d.cells[r][c] == b.cells[r][c];
        assert b.CellAt(r, c) == b.cells[r][c];
      }
    }
  }

  /** A drop into one's own column that raises it to at most three chips neither
      wins nor fills the board. */
  lemma OwnColumnDropDoesNotEnd(b: Board, x: ChipColor, y: ChipColor, k0: nat, k1: nat, col: nat, taken: seq<Position>)
    requires TwoColumns(b, x, y, k0, k1) && col < 2 && x != y
    requires (if col == 0 then k0 else k1) < 3
    requires taken != [] && taken[|taken| - 1] == Position(if col == 0 then k0 else k1, col)
    ensures !b.IsColumnFull(col) && b.FirstEmptyRow(col) == if col == 0 then k0 else k1
    ensures var d := b.Drop(col, if col == 0 then x else y);
            && (col == 0 ==> TwoColumns(d, x, y, k0 + 1, k1))
            && (col == 1 ==> TwoColumns(d, x, y, k0, k1 + 1))
            && !Won(d, 4, taken) && !d.IsFull()
  {
    DropOnTwoColumns(b, x, y, k0, k1, col);
    var chip := if col == 0 then x else y;
    var d := b.Drop(col, chip);
    assert d.CellAt(5, 6) == None;
    ShortColumnDoesNotWin(d, 4, taken, chip, (if col == 0 then k0 else k1) + 1);
  }

  /** A game in progress between red and blue on a two-column board, with red
      to play when redToPlay and blue otherwise. */
  ghost predicate Midgame(m: Model, red: Player, blue: Player, k0: nat, k1: nat, redToPlay: bool)
    reads m, m.cmdStack
  {
    && m.Valid()
    && m.board.Some?
    && TwoColumns(m.board.value, red.color, blue.color, k0, k1)
    && m.inARowValue == 4
    && m.playersInfo == PlayersInfo([red, blue], if redToPlay then 0 else 1, if redToPlay then 1 else 0)
  }

  /** The player to move drops into their column, raising it to at most three
      chips: no win, no tie, and the turn passes to the other player. */
  method PlayInOwnColumn(m: Model, red: Player, blue: Player, k0: nat, k1: nat, col: nat)
    requires Midgame(m, red, blue, k0, k1, col == 0) && col < 2 && red.color != blue.color
    requires (if col == 0 then k0 else k1) < 3
    modifies m, m.cmdStack
    ensures col == 0 ==> Midgame(m, red, blue, k0 + 1, k1, false)
    ensures col == 1 ==> Midgame(m, red, blue, k0, k1 + 1, true)
    ensures !m.IsWon() && !m.IsTie()
  {
    var b := m.board.value;
    var turn := m.playersInfo;
    var chip := if col == 0 then red.color else blue.color;
    var k := if col == 0 then k0 else k1;
    OwnColumnDropDoesNotEnd(b, red.color, blue.color, k0, k1, col, m.takenPositions + [Position(k, col)]);
    assert m.Accepts(chip, col);
    m.DropChip(chip, col);
    assert m.playersInfo == turn.Rotated();
    assert m.playersInfo == PlayersInfo([red, blue], 1 - col, col);
  }

  /** Red and blue each drop three chips into their own column. */
  method PlayThreeRounds(m: Model, red: Player, blue: Player)
    requires Midgame(m, red, blue, 0, 0, true) && red.color != blue.color
    modifies m, m.cmdStack
    ensures Midgame(m, red, blue, 3, 3, true) && !m.IsWon()
  {
    PlayInOwnColumn(m, red, blue, 0, 0, 0);
    PlayInOwnColumn(m, red, blue, 1, 0, 1);
    PlayInOwnColumn(m, red, blue, 1, 1, 0);
    PlayInOwnColumn(m, red, blue, 2, 1, 1);
    PlayInOwnColumn(m, red, blue, 2, 2, 0);
    PlayInOwnColumn(m, red, blue, 3, 2, 1);
  }

  /** With three red chips in column 0, a fourth one there wins for red, who
      remains the active player. */
  method WinningDrop(m: Model, red: Player, blue: Player)
    requires Midgame(m, red, blue, 3, 3, true) && red.color != blue.color
    modifies m, m.cmdStack
    ensures m.Valid() && m.IsWon() && m.GetActivePlayer() == red
    ensures |m.notifications| > 0 && m.notifications[|m.notifications| - 1] == NotificationContext.GameWon
  {
    var b := m.board.value;
    DropOnTwoColumns(b, red.color, blue.color, 3, 3, 0);
    assert m.Accepts(red.color, 0);
    m.DropChip(red.color, 0);
    assert m.board.value == b.Drop(0, red.color);
    VerticalRunWins(m.board.value, 4, m.takenPositions, red.color);
  }

  /** A new 6 x 7 game, four in a row, between red (first) and blue (second). */
  method NewTwoPlayerGame(red: Player, blue: Player) returns (m: Model)
    requires red.name != "" && blue.name != ""
    ensures fresh(m) && fresh(m.cmdStack)
    ensures Midgame(m, red, blue, 0, 0, true)
    ensures m.GetChip(0, 0) == Transparent && !m.IsWon()
  {
    var stack := new CommandStack(200);
    m := new Model(stack);
    m.CreateNewGame(NewGameInformation(7, 6, 4, [red, blue]));
  }

  /** The first drop of a game lands at the bottom of its column and hands the
      turn to the second player; the first becomes the next. */
  method FirstDropPassesTheTurn(red: Player, blue: Player) returns (active: Player, next: Player, before: ChipColor, after: ChipColor)
    requires red.name != "" && blue.name != "" && red.color != blue.color
    ensures active == blue && next == red
    ensures before == Transparent && after == red.color
  {
    var m := NewTwoPlayerGame(red, blue);
    before := m.GetChip(0, 0);
    PlayInOwnColumn(m, red, blue, 0, 0, 0);
    active := m.GetActivePlayer();
    next := m.GetNextPlayer();
    after := m.GetChip(0, 0);
  }

  /** Red and blue each stack three chips in their own column; red's fourth chip
      in column 0 wins, and red stays the active player. */
  method VerticalFourWins(red: Player, blue: Player) returns (wonBefore: bool, wonAfter: bool, winner: Player)
    requires red.name != "" && blue.name != "" && red.color != blue.color
    ensures !wonBefore && wonAfter && winner == red
  {
    var m := NewTwoPlayerGame(red, blue);
    PlayThreeRounds(m, red, blue);
    wonBefore := m.IsWon();
    WinningDrop(m, red, blue);
    wonAfter := m.IsWon();
    winner := m.GetActivePlayer();
  }

  /** After a reinitialisation the board remembers none of the chips played
      before: the drop that would have won the earlier game does not win. */
  method ReinitializedGameForgetsEarlierChips(red: Player, blue: Player) returns (won: bool, active: Player)
    requires red.name != "" && blue.name != "" && red.color != blue.color
    ensures !won && active == blue
  {
    var m := NewTwoPlayerGame(red, blue);
    PlayThreeRounds(m, red, blue);
    m.ReinitializeCurrentGame();
    PlayInOwnColumn(m, red, blue, 0, 0, 0);
    won := m.IsWon();
    active := m.GetActivePlayer();
  }

  /** The first chip of a game lands at the bottom of its column and, alone on
      the board, neither wins nor fills it. */
  lemma FirstChipDoesNotEnd(e: Board, col: nat, chip: ChipColor, inARow: nat, taken: seq<Position>)
    requires e.Valid() && e.rows >= 2 && col < e.cols && inARow >= 2 && taken == [Position(0, col)]
    requires forall r: int, c: int :: e.CellAt(r, c) == None
    ensures && !e.IsColumnFull(col) && e.FirstEmptyRow(col) == 0
            && !Won(e.Drop(col, chip), inARow, taken) && !e.Drop(col, chip).IsFull()
  {
    var rows, cols := e.rows, e.cols;
    assert e.CellAt(0, col) == None;
    var d := e.Drop(col, chip);
    forall r: int, c: int | r != 0 || c != col ensures d.CellAt(r, c) != d.CellAt(0, col) {
      if 0 <= r < rows && 0 <= c < cols {
        assert d.cells[r][c] == e.cells[r][c];
        assert e.CellAt(r, c) == e.cells[r][c];
      }
    }
    LoneChipDoesNotWin(d, inARow, taken);
    assert d.cells[1][col] == e.cells[1][col];
    assert e.CellAt(1, col) == None;
  }

  /** Three players start a game and the first drops a chip, which moves the turn
      to indices (1, 2). Starting a two-player game through the new-game
      command as the code has it keeps both indices, so the next index names no
      player, and keeps the taken position, which no chip on the new board backs. */
  method StaleIndicesAfterRecreate(a: Player, b: Player, c: Player)
      returns (nextIndex: nat, playerCount: nat, takenCount: nat, filled: nat)
    requires a.name != "" && b.name != "" && c.name != ""
    ensures nextIndex == 2 && playerCount == 2 && nextIndex >= playerCount
    ensures takenCount == 1 && filled == 0
  {
    var m := FirstDropOfThree(a, b, c);
    m.CreateNewGameAsWritten(NewGameInformation(7, 6, 4, [a, b]));
    nextIndex := m.playersInfo.nextPlayerIndex;
    playerCount := |m.playersInfo.players|;
    takenCount := |m.takenPositions|;
    filled := m.board.value.FilledCount();
  }

  /** The same sequence through the corrected new-game operation: the new game
      starts with the first player active, the second next and nothing taken. */
  method FreshIndicesAfterRecreate(a: Player, b: Player, c: Player)
      returns (activeIndex: nat, nextIndex: nat, playerCount: nat, takenCount: nat)
    requires a.name != "" && b.name != "" && c.name != ""
    ensures activeIndex == 0 && nextIndex == 1 && nextIndex < playerCount == 2
    ensures takenCount == 0
  {
    var m := FirstDropOfThree(a, b, c);
    m.CreateNewGame(NewGameInformation(7, 6, 4, [a, b]));
    activeIndex := m.playersInfo.activePlayerIndex;
    nextIndex := m.playersInfo.nextPlayerIndex;
    playerCount := |m.playersInfo.players|;
    takenCount := |m.takenPositions|;
  }

  /** A 6 x 7, four-in-a-row game between a, b and c after a's first chip in column 0. */
  method FirstDropOfThree(a: Player, b: Player, c: Player) returns (m: Model)
    requires a.name != "" && b.name != "" && c.name != ""
    ensures fresh(m) && fresh(m.cmdStack) && m.Valid()
    ensures m.playersInfo == PlayersInfo([a, b, c], 1, 2) && |m.takenPositions| == 1
  {
    var stack := new CommandStack(200);
    m := new Model(stack);
    m.CreateNewGame(NewGameInformation(7, 6, 4, [a, b, c]));
    FirstDrop(m, a.color);
  }

  /** The first drop of a game on an empty board, by the active player into
      column 0, neither wins nor ties and passes the turn. */
  method FirstDrop(m: Model, chip: ChipColor)
    requires m.Valid() && m.board.Some? && m.board.value.rows >= 2 && m.board.value.cols > 0
    requires forall r: int, c: int :: m.board.value.CellAt(r, c) == None
    requires m.takenPositions == [] && chip == m.GetActivePlayer().color
    modifies m, m.cmdStack
    ensures m.Valid() && |m.takenPositions| == 1
    ensures m.playersInfo == old(m.playersInfo.Rotated())
  {
    var e := m.board.value;
    FirstChipDoesNotEnd(e, 0, chip, m.inARowValue, [Position(0, 0)]);
    assert [] + [m.DropPosition(0)] == [Position(0, 0)];
    assert m.Accepts(chip, 0);
    m.DropChip(chip, 0);
  }
}
