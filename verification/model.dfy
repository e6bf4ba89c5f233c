/** The game-state engine: the board, the players and whose turn it is, the
    in-a-row value, the record of taken positions and the command history. */
module GameModel {
  import opened Options
  import opened Chips
  import opened Boards
  import opened Resolution
  import opened Commands

  const GridMinHeight: nat := 6
  const GridMaxHeight: nat := 64
  const GridMinWidth: nat := 7
  const GridMaxWidth: nat := 64
  const InARowMin: nat := 3
  const InARowMax: nat := 8
  const NumberOfPlayersMin: nat := 2
  const NumberOfPlayersMax: nat := 10

  /** The in-a-row value of a model with no game. */
  const DefaultInARow: nat := 4

  /** What observers are told after an action. */
  datatype NotificationContext =
    | CreateNewGame
    | ChipDropped
    | GameWon
    | GameTied
    | GameEnded
    | GameReinitialized

  /** What a caller supplies to start a game. */
  datatype NewGameInformation = NewGameInformation(gridWidth: nat, gridHeight: nat, inARowValue: nat, players: seq<Player>)

  /** The players in turn order, whose turn it is and whose turn is next. */
  datatype PlayersInfo = PlayersInfo(players: seq<Player>, activePlayerIndex: nat, nextPlayerIndex: nat) {

    /** Both indices name players, and the next player follows the active one cyclically. */
    ghost predicate Valid() {
      && |players| >= 2
      && activePlayerIndex < |players|
      && nextPlayerIndex == (activePlayerIndex + 1) % |players|
    }

    /** The turn passes: both indices move forward by one, cyclically. */
    function Rotated(): (r: PlayersInfo)
      requires Valid()
      ensures r.Valid() && r.players == players
      ensures r.activePlayerIndex == nextPlayerIndex
      ensures |players| == 2 ==> r.nextPlayerIndex == activePlayerIndex
    {
      PlayersInfo(players, (activePlayerIndex + 1) % |players|, (nextPlayerIndex + 1) % |players|)
    }
  }

  /** The players information of a model with no game: nobody, indices (0, 1). */
  const NoPlayers := PlayersInfo([], 0, 1)

  class Model {
    const cmdStack: CommandStack
    var board: Option<Board>
    var playersInfo: PlayersInfo
    var inARowValue: nat
    var takenPositions: seq<Position>
    /** The notifications sent to observers so far, in order. */
    ghost var notifications: seq<NotificationContext>

    /** The class invariant. Without a board every field holds its default; with
        one, the board is well formed, the indices are valid, every player is named
        and the taken positions are the occupied cells, one record per chip. */
    ghost predicate Valid()
      reads this, cmdStack
      ensures Valid() ==> cmdStack.Valid()
    {
      && cmdStack.Valid()
      && match board
         case None =>
           playersInfo == NoPlayers && inARowValue == DefaultInARow && takenPositions == []
         case Some(b) =>
           && b.Valid()
           && playersInfo.Valid()
           && (forall p :: p in playersInfo.players ==> p.name != "")
           && inARowValue > 1
           && |takenPositions| == b.FilledCount()
           && (forall i :: 0 <= i < |takenPositions| ==> b.CellAt(takenPositions[i].row, takenPositions[i].column).Some?)
    }

    /** During a game the turn is well defined: both indices name players, and
        the active and next players sit at different places in the turn order. */
    lemma TurnIsWellDefined()
      requires Valid() && board.Some?
      ensures playersInfo.activePlayerIndex < |playersInfo.players|
      ensures playersInfo.nextPlayerIndex < |playersInfo.players|
      ensures playersInfo.activePlayerIndex != playersInfo.nextPlayerIndex
    {
    }

    /** A model with no game, over an empty command stack. */
    constructor (stack: CommandStack)
      requires stack.Valid() && stack.IsEmpty()
      ensures Valid() && cmdStack == stack
      ensures board == None && playersInfo == NoPlayers && inARowValue == DefaultInARow
      ensures takenPositions == [] && notifications == []
      ensures !CanUndo() && !CanRedo()
    {
      cmdStack := stack;
      board := None;
      playersInfo := NoPlayers;
      inARowValue := DefaultInARow;
      takenPositions := [];
      notifications := [];
    }

    /** Rows of the current grid; 0 without a game. */
    function GetCurrentGridHeight(): (h: nat)
      reads this, cmdStack
      requires Valid()
      ensures board.Some? ==> h == |board.value.cells|
      ensures board.None? ==> h == 0
    {
      if board.None? then 0 else board.value.rows
    }

    /** Columns of the current grid; 0 without a game. */
    function GetCurrentGridWidth(): (w: nat)
      reads this, cmdStack
      requires Valid()
      ensures board.Some? ==> forall r :: 0 <= r < |board.value.cells| ==> |board.value.cells[r]| == w
      ensures board.None? ==> w == 0
    {
      if board.None? then 0 else board.value.cols
    }

    /** The in-a-row value of the current game; the default without one. */
    function GetCurrentInARowValue(): (n: nat)
      reads this, cmdStack
      requires Valid()
      ensures board.Some? ==> n > 1
      ensures board.None? ==> n == DefaultInARow
    {
      inARowValue
    }

    /** The player whose turn it is; a placeholder when fewer than two players are configured. */
    function GetActivePlayer(): (p: Player)
      reads this, cmdStack
      requires Valid()
      ensures p.name != ""
      ensures board.Some? ==> p in playersInfo.players && p == playersInfo.players[playersInfo.activePlayerIndex]
      ensures board.None? ==> p == NoActivePlayer
    {
      if |playersInfo.players| < 2 then NoActivePlayer else playersInfo.players[playersInfo.activePlayerIndex]
    }

    /** The player whose turn comes next; a placeholder when fewer than two players are configured. */
    function GetNextPlayer(): (p: Player)
      reads this, cmdStack
      requires Valid()
      ensures p.name != ""
      ensures board.Some? ==> p in playersInfo.players && p == playersInfo.players[playersInfo.nextPlayerIndex]
      ensures board.None? ==> p == NoNextPlayer
    {
      if |playersInfo.players| < 2 then NoNextPlayer else playersInfo.players[playersInfo.nextPlayerIndex]
    }

    /** The colour of the chip at (row, column); transparent outside the grid,
        on an empty cell, or without a game. */
    function GetChip(row: nat, column: nat): (c: ChipColor)
      reads this, cmdStack
      requires Valid()
      ensures row >= GetCurrentGridHeight() || column >= GetCurrentGridWidth() ==> c == Transparent
      ensures c != Transparent ==> board.Some? && board.value.CellAt(row, column) == Some(c)
      ensures board.Some? && board.value.CellAt(row, column).Some? ==> c == board.value.CellAt(row, column).value
    {
      match board
      case None => Transparent
      case Some(b) => if row >= b.rows || column >= b.cols then Transparent else b.GetChip(row, column)
    }

    /** The last drop completed a line of in-a-row chips. */
    predicate IsWon()
      reads this
      ensures IsWon() ==> && board.Some? && inARowValue > 0 && takenPositions != []
                          && board.value.CellAt(takenPositions[|takenPositions| - 1].row,
                                                takenPositions[|takenPositions| - 1].column).Some?
    {
      board.Some? && Won(board.value, inARowValue, takenPositions)
    }

    /** As many positions are taken as the board has cells; this is exactly
        "the board is full". */
    predicate IsTie()
      reads this, cmdStack
      requires Valid()
      ensures IsTie() <==> board.Some? && board.value.IsFull()
    {
      match board
      case None => false
      case Some(b) =>
        b.FilledCountBound();
        |takenPositions| >= b.NbPositions()
    }

    /** Some command in the history can be undone. */
    predicate CanUndo()
      reads cmdStack
      requires cmdStack.Valid()
      ensures CanUndo() ==> |cmdStack.commands| > 0
      ensures !CanUndo() && !cmdStack.CanRedo() <==> cmdStack.IsEmpty()
    {
      cmdStack.CanUndo()
    }

    /** Some undone command in the history can be redone. */
    predicate CanRedo()
      reads cmdStack
      requires cmdStack.Valid()
      ensures CanRedo() ==> |cmdStack.commands| > 0
      ensures !CanRedo() ==> cmdStack.cursor == |cmdStack.commands|
    {
      cmdStack.CanRedo()
    }

    /** The drop guards: a game exists, the column is on the board and the chip
        is the active player's. */
    predicate Accepts(chip: ChipColor, column: nat)
      reads this, cmdStack
      requires Valid()
    {
      board.Some? && column < board.value.cols && chip == GetActivePlayer().color
    }

    /** Starts a game with a fresh empty board of the requested size, the given
        players and in-a-row value; the first player is active, the second next. */
    method CreateNewGame(info: NewGameInformation)
      requires Valid()
      requires info.gridWidth > 0 && info.gridHeight > 0 && info.inARowValue > 1
      requires |info.players| > 1 && forall p :: p in info.players ==> p.name != ""
      modifies this
      ensures Valid()
      ensures board == Some(EmptyBoard(info.gridHeight, info.gridWidth))
      ensures GetCurrentGridWidth() == info.gridWidth && GetCurrentGridHeight() == info.gridHeight
      ensures playersInfo == PlayersInfo(info.players, 0, 1) && inARowValue == info.inARowValue
      ensures GetActivePlayer() == info.players[0] && GetNextPlayer() == info.players[1]
      ensures takenPositions == [] && !IsWon()
      ensures notifications == old(notifications) + [NotificationContext.CreateNewGame]
    {
      board := Some(EmptyBoard(info.gridHeight, info.gridWidth));
      playersInfo := PlayersInfo(info.players, 0, 1);
      inARowValue := info.inARowValue;
      takenPositions := [];
      notifications := notifications + [NotificationContext.CreateNewGame];
    }

    /** CreateNewGame as the code has it: the new-game command replaces the board,
        the players and the in-a-row value only, so the indices and the taken
        positions of a game in progress survive into the new game. */
    method CreateNewGameAsWritten(info: NewGameInformation)
      requires Valid()
      requires info.gridWidth > 0 && info.gridHeight > 0 && info.inARowValue > 1
      requires |info.players| > 1 && forall p :: p in info.players ==> p.name != ""
      modifies this
      ensures board == Some(EmptyBoard(info.gridHeight, info.gridWidth))
      ensures playersInfo == old(playersInfo).(players := info.players) && inARowValue == info.inARowValue
      ensures takenPositions == old(takenPositions)
      ensures notifications == old(notifications) + [NotificationContext.CreateNewGame]
    {
      board := Some(EmptyBoard(info.gridHeight, info.gridWidth));
      playersInfo := playersInfo.(players := info.players);
      inARowValue := info.inARowValue;
      notifications := notifications + [NotificationContext.CreateNewGame];
    }

    /** The position a chip dropped into column would occupy. */
    function DropPosition(column: nat): (p: Position)
      reads this, cmdStack
      requires Valid() && board.Some? && column < board.value.cols
    {
      Position(board.value.FirstEmptyRow(column), column)
    }

    /** The drop command, run through the command stack: the chip fills the
        lowest empty cell of column, the position is recorded, the turn passes,
        observers hear of the drop and the command joins the history. */
    method ExecuteDrop(chip: ChipColor, column: nat)
      requires Valid() && board.Some? && column < board.value.cols && !board.value.IsColumnFull(column)
      modifies this, cmdStack
      ensures Valid()
      ensures board == Some(old(board.value.Drop(column, chip)))
      ensures takenPositions == old(takenPositions) + [old(DropPosition(column))]
      ensures playersInfo == old(playersInfo.Rotated()) && inARowValue == old(inARowValue)
      ensures notifications == old(notifications) + [NotificationContext.ChipDropped]
      ensures cmdStack.commands == Pushed(old(cmdStack.commands), old(cmdStack.cursor),
                                          DropChipCommand(chip, old(DropPosition(column))), cmdStack.capacity)
      ensures cmdStack.cursor == |cmdStack.commands|
    {
      var b := board.value;
      var position := Position(b.FirstEmptyRow(column), column);
      var b' := b.Drop(column, chip);
      board := Some(b');
      takenPositions := takenPositions + [position];
      playersInfo := playersInfo.Rotated();
      notifications := notifications + [NotificationContext.ChipDropped];
      cmdStack.Execute(DropChipCommand(chip, position));
    }

    /** Drops the active player's chip into column. A missing game, a column off
        the board or a chip of another colour leave everything unchanged. Into a
        column with room, the chip fills its lowest empty cell, the position is
        recorded and the turn passes. Whether or not a chip went in, a won or tied
        game then keeps the turn with the player who dropped. */
    method DropChip(chip: ChipColor, column: nat)
      requires Valid()
      modifies this, cmdStack
      ensures Valid()
      ensures !old(Accepts(chip, column)) ==> unchanged(this) && unchanged(cmdStack)
      ensures old(Accepts(chip, column)) && old(!board.value.IsColumnFull(column)) ==>
                && board == Some(old(board.value.Drop(column, chip)))
                && takenPositions == old(takenPositions) + [old(DropPosition(column))]
                && GetChip(old(DropPosition(column)).row, column) == chip
                && cmdStack.commands == Pushed(old(cmdStack.commands), old(cmdStack.cursor),
                                              DropChipCommand(chip, old(DropPosition(column))), cmdStack.capacity)
                && !CanRedo()
      ensures old(Accepts(chip, column)) && old(board.value.IsColumnFull(column)) ==>
                board == old(board) && takenPositions == old(takenPositions) && unchanged(cmdStack)
      ensures playersInfo.players == old(playersInfo.players) && inARowValue == old(inARowValue)
      ensures old(Accepts(chip, column)) && (IsWon() || IsTie()) ==>
                playersInfo == old(playersInfo) && GetActivePlayer() == old(GetActivePlayer())
      ensures old(Accepts(chip, column)) && !IsWon() && !IsTie() ==>
                playersInfo == if old(board.value.IsColumnFull(column)) then old(playersInfo) else old(playersInfo.Rotated())
      ensures old(Accepts(chip, column)) ==>
                notifications == old(notifications)
                                 + (if old(board.value.IsColumnFull(column)) then [] else [NotificationContext.ChipDropped])
                                 + (if IsWon() then [NotificationContext.GameWon]
                                    else if IsTie() then [NotificationContext.GameTied]
                                    else [])
    {
      if board.None? {
        return;
      }
      var b := board.value;
      if column >= b.cols {
        return;
      }
      var before := playersInfo;
      if chip != playersInfo.players[playersInfo.activePlayerIndex].color {
        return;
      }
      if !b.IsColumnFull(column) {
        ExecuteDrop(chip, column);
      }
      ResolveDrop(before);
    }

    /** The end-of-drop resolution: on a win, and otherwise on a tie, the turn
        goes back to the indices held before the drop and observers are told;
        otherwise nothing changes. */
    method ResolveDrop(before: PlayersInfo)
      requires Valid() && board.Some? && before.Valid() && before.players == playersInfo.players
      modifies this`playersInfo, this`notifications
      ensures Valid()
      ensures IsWon() ==> playersInfo == before && notifications == old(notifications) + [NotificationContext.GameWon]
      ensures !IsWon() && IsTie() ==> playersInfo == before && notifications == old(notifications) + [NotificationContext.GameTied]
      ensures !IsWon() && !IsTie() ==> playersInfo == old(playersInfo) && notifications == old(notifications)
    {
      if IsWon() {
        playersInfo := before;
        notifications := notifications + [NotificationContext.GameWon];
        return;
      }
      if IsTie() {
        playersInfo := before;
        notifications := notifications + [NotificationContext.GameTied];
        return;
      }
    }

    /** Ends the game: the history is cleared and, if a game exists, every field
        returns to its default and observers are told. */
    method EndCurrentGame()
      requires Valid()
      modifies this, cmdStack
      ensures Valid()
      ensures cmdStack.IsEmpty() && !CanUndo() && !CanRedo()
      ensures board == None && playersInfo == NoPlayers && inARowValue == DefaultInARow && takenPositions == []
      ensures GetActivePlayer() == NoActivePlayer && GetNextPlayer() == NoNextPlayer
      ensures (forall r, c :: GetChip(r, c) == Transparent) && !IsWon() && !IsTie()
      ensures notifications == old(notifications) + (if old(board).Some? then [NotificationContext.GameEnded] else [])
    {
      cmdStack.Clear();
      if board.None? {
        return;
      }
      board := None;
      playersInfo := NoPlayers;
      inARowValue := DefaultInARow;
      takenPositions := [];
      notifications := notifications + [NotificationContext.GameEnded];
    }

    /** Restarts the game on an empty board of the same size, with the same
        players and in-a-row value, the first player active; the history is cleared. */
    method ReinitializeCurrentGame()
      requires Valid()
      modifies this, cmdStack
      ensures Valid()
      ensures cmdStack.IsEmpty() && !CanUndo() && !CanRedo()
      ensures old(board).None? ==> board == None && notifications == old(notifications)
      ensures old(board).Some? ==>
                && board == Some(EmptyBoard(old(board.value.rows), old(board.value.cols)))
                && takenPositions == []
                && playersInfo == PlayersInfo(old(playersInfo.players), 0, 1)
                && GetActivePlayer() == old(playersInfo.players[0])
                && GetNextPlayer() == old(playersInfo.players[1])
                && notifications == old(notifications) + [NotificationContext.GameReinitialized]
      ensures playersInfo.players == old(playersInfo.players) && inARowValue == old(inARowValue)
      ensures GetCurrentGridHeight() == old(GetCurrentGridHeight()) && GetCurrentGridWidth() == old(GetCurrentGridWidth())
      ensures forall r, c :: GetChip(r, c) == Transparent
    {
      cmdStack.Clear();
      if board.None? {
        return;
      }
      var b := board.value;
      board := Some(EmptyBoard(b.rows, b.cols));
      takenPositions := [];
      playersInfo := playersInfo.(activePlayerIndex := 0, nextPlayerIndex := 1);
      notifications := notifications + [NotificationContext.GameReinitialized];
    }

    /** Steps the history back by one command when there is one to undo. */
    method Undo()
      requires Valid()
      modifies cmdStack
      ensures Valid() && cmdStack.commands == old(cmdStack.commands)
      ensures cmdStack.cursor == if old(CanUndo()) then old(cmdStack.cursor) - 1 else old(cmdStack.cursor)
      ensures old(CanUndo()) ==> CanRedo()
    {
      cmdStack.Undo();
    }

    /** Steps the history forward by one command when there is one to redo. */
    method Redo()
      requires Valid()
      modifies cmdStack
      ensures Valid() && cmdStack.commands == old(cmdStack.commands)
      ensures cmdStack.cursor == if old(CanRedo()) then old(cmdStack.cursor) + 1 else old(cmdStack.cursor)
      ensures old(CanRedo()) ==> CanUndo()
    {
      cmdStack.Redo();
    }
  }
}
