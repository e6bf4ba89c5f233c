# ConnectX game-state engine in Dafny

This project models the game model of ConnectX. ConnectX is a Connect-Four variant with a configurable grid, a configurable in-a-row value and two or more players.

The `Model` owns these pieces of state:

- the board (absent when no game is running);
- the players in turn order, with the indices of the active and the next player;
- the in-a-row value;
- the record of taken positions, in drop order;
- the undo/redo command stack.

Its operations are:

- create a game;
- drop the active player's chip into a column;
- end or reinitialise the current game;
- undo and redo;
- queries: grid size, in-a-row value, active/next player, chip at a cell, won, tied, can undo/redo.

It also models `GameInformation`, the record of grid size, in-a-row value and an append-only list of players.

How the model is laid out:

- `chips.dfy`: colours and players.
- `board.dfy`: the board as a value. Row 0 is the bottom. A chip lands in the lowest empty cell of its column. The occupied-cell count is proved to reach rows x columns exactly when the board is full.
- `resolution.dfy`: the win condition. The most recent drop must lie on a run of at least in-a-row chips of its colour, along one of the four axes.
- `commands.dfy`: the bounded command history and its cursor.
- `model.dfy`: the `Model` class. Each operation is a method with a `modifies` clause, and each query is a function. The invariant `Valid` says:
  - without a game, every field holds its default;
  - with a game, the board is well formed and chips rest on one another;
  - the indices name players, and the next player follows the active one;
  - every player is named, and the in-a-row value exceeds 1;
  - the taken positions are exactly as many as the chips on the board, and each one is occupied.
- `game_information.dfy`: the `GameInformation` class.
- `scenarios.dfy`: games played through the model, as in the model's own test games. Each one is a method whose outcome is proved.

The source's assertion macros are modelled this way:

- A `PRECONDITION` that does not return becomes a `requires`. This covers the player and size checks of `CreateNewGame` and the empty command stack of the constructor.
- A guard that returns early becomes a branch that changes nothing: the missing board, the column off the grid, the chip of the wrong colour.

Observer notifications are recorded in a ghost log, `notifications`.

## Model

| member | source | states |
|---|---|---|
| Boards.Board.FirstEmptyRow | cxmodel/src/Model.cpp:213 | The landing row of a column: every cell below it is occupied and the row itself is empty. It equals the row count exactly when the column is full. |
| Boards.Board.ColumnFullIffTopOccupied | cxmodel/src/Model.cpp:213 | When chips rest on one another, a column is full exactly when its top cell is occupied. |
| Boards.Board.Drop | cxmodel/src/Model.cpp:213-222 | Dropping into a column with room keeps the board well formed and stacked. The landing cell, empty before, now holds the chip. Every other cell is unchanged, and the chip count grows by one. |
| Boards.EmptyBoard | cxmodel/src/Model.cpp:305 | A new board of the given size has every cell empty and no chip counted. |
| Boards.Board.FilledCountBound | cxmodel/src/Model.cpp:386 | The chip count never exceeds rows x columns. It equals rows x columns exactly when every cell is occupied. |
| Boards.GridCountBound | cxmodel/src/Model.cpp:386 | For a grid of equal-length rows, the count is at most rows x columns, with equality exactly when every cell is occupied. |
| Resolution.Won | cxmodel/src/Model.cpp:378 | This stands in for the win strategy consulted at that line. A game counts as won only when in-a-row is positive, some position is taken, and the last taken position holds a chip; that chip must lie on a line of in-a-row chips of its colour. |
| Resolution.VerticalRunWins | cxmodel/src/Model.cpp:374-379 | In-a-row chips of one colour stacked in a column, with the last drop on top, make the game won. |
| Resolution.LoneChipDoesNotWin | cxmodel/src/Model.cpp:374-379 | A last chip whose colour appears nowhere else on the board never wins when in-a-row is at least 2. |
| Resolution.ShortColumnDoesNotWin | cxmodel/src/Model.cpp:374-379 | Suppose all chips of a colour lie in the lowest k < in-a-row rows of one column. Then a last chip of that colour there does not win. |
| Commands.Pushed | cxmodel/src/Model.cpp:222 | Executing a command keeps the undoable prefix, discards the redoable tail and appends the command as the newest entry. The result never exceeds the capacity; at capacity the oldest entries are dropped. |
| Commands.CommandStack.Execute | cxmodel/src/Model.cpp:222 | The history becomes `Pushed` of the old one, and nothing is left to redo. |
| Commands.CommandStack.Undo | cxmodel/src/Model.cpp:397 | The cursor steps back by one when something can be undone, and stays put otherwise. The history itself is unchanged. |
| Commands.CommandStack.Redo | cxmodel/src/Model.cpp:408 | The cursor steps forward by one when something can be redone, and stays put otherwise. The history itself is unchanged. |
| Commands.CommandStack.Clear | cxmodel/src/Model.cpp:273 | The history is emptied and the cursor reset. |
| GameModel.PlayersInfo.Rotated | cxmodel/src/Model.cpp:189-192 | Passing the turn keeps the indices valid and makes the old next player active. With two players, the old active player becomes next. |
| GameModel.Model.Valid | cxmodel/src/Model.cpp:448-451 | This is the class invariant that every operation keeps. The code's only invariant, a non-null stack, is the non-null type of `cmdStack`; `Valid` also keeps that stack well formed. It adds four things. Without a game, every field holds its default. With a game, the board is well formed and stacked, the indices are valid with the next player following the active one cyclically, and every player is named with an in-a-row value above 1. Finally, there is one taken position per chip, and each one is occupied. |
| GameModel.Model.TurnIsWellDefined | cxmodel/src/Model.cpp:194 | Under the invariant during a game, both indices name players and the active and next players differ. |
| GameModel.Model.constructor | cxmodel/src/Model.cpp:63-77 | A new model over an empty stack has no board, no players, indices (0, 1), in-a-row 4, nothing taken, and nothing to undo or redo. |
| GameModel.Model.CreateNewGame | cxmodel/src/Model.cpp:146-182 | Under the source's preconditions, the model gets an empty board of the requested size, the given players and the given in-a-row value. The indices become (0, 1), nothing is taken and the game is not won. The first player is active and the second next. The invariant holds, and observers hear CreateNewGame. |
| GameModel.Model.CreateNewGameAsWritten | cxmodel/src/Model.cpp:158-160 | The new-game command as the code calls it replaces the board, the players and the in-a-row value. It keeps the old indices and the old taken positions. |
| GameModel.Model.GetCurrentGridHeight | cxmodel/src/Model.cpp:329-334 | The number of rows of the current board, or 0 without a game. |
| GameModel.Model.GetCurrentGridWidth | cxmodel/src/Model.cpp:336-341 | The length of every row of the current board, or 0 without a game. |
| GameModel.Model.GetCurrentInARowValue | cxmodel/src/Model.cpp:343-346 | More than 1 during a game, and the default 4 without one. |
| GameModel.Model.GetActivePlayer | cxmodel/src/Model.cpp:348-353 | During a game, the player at the active index, who is one of the players. Without a game, the "Woops (active)!" placeholder. Always a named player. |
| GameModel.Model.GetNextPlayer | cxmodel/src/Model.cpp:355-360 | During a game, the player at the next index. Without a game, the "Woops! (next)" placeholder. Always a named player. |
| GameModel.Model.GetChip | cxmodel/src/Model.cpp:362-372 | Off the grid, or without a game, the result is transparent. A non-transparent result is the chip in that cell, and an occupied cell yields its chip. |
| GameModel.Model.IsWon | cxmodel/src/Model.cpp:374-379 | A game exists and the last taken position lies on a line of in-a-row chips of its colour. Being won therefore needs a running game, at least one taken position and an occupied last cell. |
| GameModel.Model.IsTie | cxmodel/src/Model.cpp:381-391 | Tied exactly when a game exists and its board is full. |
| GameModel.Model.CanUndo | cxmodel/src/Model.cpp:415-420 | Undo is possible only with a non-empty history. When neither undo nor redo is possible, the history is empty, and the converse also holds. |
| GameModel.Model.CanRedo | cxmodel/src/Model.cpp:422-427 | Redo is possible only with a non-empty history. When nothing can be redone, the cursor sits at the end of the history. |
| GameModel.Model.ResolveDrop | cxmodel/src/Model.cpp:234-264 | On a win, the turn goes back to the indices held before the drop and GameWon is notified. Otherwise, on a tie, the same rollback happens with GameTied. Otherwise nothing changes. The invariant is preserved. |
| GameModel.Model.ExecuteDrop | cxmodel/src/Model.cpp:213-228 | The drop command does four things: it places the chip with `Drop`, appends the landing position, passes the turn and records the command with `Pushed`. The invariant is preserved. |
| GameModel.Model.DropChip | cxmodel/src/Model.cpp:184-267 | The invariant holds after every drop. A drop with no game, off the grid or in the wrong colour changes nothing. Into a column with room, the chip lands in the lowest empty cell and reads back there. Its position is appended, the command is recorded and nothing is left to redo. A full column leaves board, record and history alone. On a win or a tie the turn stays with the dropping player; otherwise it passes if a chip went in. Observers hear ChipDropped, then GameWon or GameTied. |
| GameModel.Model.EndCurrentGame | cxmodel/src/Model.cpp:269-291 | The history is always cleared. Every field returns to its default: no board, no players, in-a-row 4, nothing taken. Placeholders are reported, every chip is transparent, and the game is neither won nor tied. GameEnded is notified only if a game existed. |
| GameModel.Model.ReinitializeCurrentGame | cxmodel/src/Model.cpp:293-327 | The history is cleared. A running game gets an empty board of the same size and nothing taken, and keeps its players and in-a-row value. The first player becomes active and the second next. Every chip then reads transparent, and observers hear GameReinitialized. |
| GameModel.Model.Undo | cxmodel/src/Model.cpp:393-402 | The cursor steps back when something can be undone, and that command can then be redone. The history is unchanged. |
| GameModel.Model.Redo | cxmodel/src/Model.cpp:404-413 | The cursor steps forward when something can be redone, and that command can then be undone. The history is unchanged. |
| GameInfo.GameInformation.constructor | cxmodel/include/GameInformation.h:47-75 | A new game information lists no players. |
| GameInfo.GameInformation.AddPlayer | cxmodel/include/GameInformation.h:54-59 | The player is appended after those already listed, which keep their places. The result is the new number of players. |
| GameInfo.GameInformation.GetPlayersInformation | cxmodel/include/GameInformation.h:61-64 | This is a query that reads nothing but the player list and changes nothing. It returns the players exactly as listed, in the order they were added. |
| GameInfo.TwoPlayersInOrder | cxmodel/include/GameInformation.h:54-64 | Two players added in turn are listed in that order, and the additions report 1 and 2. |
| Scenarios.FirstDropPassesTheTurn | cxmodel/test/ModelTests.cpp:165-178 | After the first drop of a two-player game, the second player is active and the first is next. The bottom-left chip, transparent before, is the first player's. |
| Scenarios.VerticalFourWins | cxmodel/test/ModelTests.cpp:199-225 | Red and blue each stack three chips without a win. Red's fourth chip in column 0 wins, and red stays active. |
| Scenarios.WinningDrop | cxmodel/test/ModelTests.cpp:222-224 | With three red chips stacked in column 0, red's fourth chip there wins. Red stays active, and the last notification is GameWon. |
| Scenarios.ReinitializedGameForgetsEarlierChips | cxmodel/test/ModelTests.cpp:475-512 | This plays the test's sequence with two players instead of three, red in column 0 and blue in column 1. After three rounds and a reinitialisation, the drop that would have won earlier does not win. The turn passes as usual. |
| Scenarios.StaleIndicesAfterRecreate | cxmodel/src/Model.cpp:158 | Start a three-player game and make one drop. A two-player game started as the code has it then has next index 2 with only two players. It also keeps one taken position on a board with no chips. |
| Scenarios.FreshIndicesAfterRecreate | cxmodel/src/Model.cpp:146-182 | The same sequence through the corrected operation leaves active index 0, next index 1 and nothing taken. |

## Left out

- Logging, the observer registry and its dispatch (`Attach`, `Notify`, `Update`) are left out. Only the sequence of notification contexts is kept, as a ghost log.
- `GetName` and `GetVersionNumber` are left out: they are fixed strings.
- The minimum and maximum getters are left out as functions. They appear as the constants `GridMinHeight` … `NumberOfPlayersMax`. The model, like the source, does not enforce them in `CreateNewGame`.
- The board, command, command-stack and resolution-strategy classes are not modelled as classes. They are replaced by these abstractions:
  - the board is a value with a lowest-empty-cell drop;
  - the history is a bounded sequence with a cursor;
  - the win condition is stated over the board and the last taken position.
- The dropped chip is identified by its colour, as the drop guard compares it.
- GameModel.Model.Undo: moves only the history cursor. The effect of undoing a drop on the board, the taken positions and the turn is not modelled, because the command bodies are not part of this model.
- GameModel.Model.Redo: moves only the history cursor, for the same reason as `Undo`.
- The tie-resolution strategy's reachability algorithm is left out. The code bypasses it for the "as many taken positions as cells" test at Model.cpp:386, which is what `IsTie` models.
- Without a game, `IsTie` returns false, as the code does at Model.cpp:383. The test at ModelTests.cpp:558-561, named "ThrowsForNow", expects an exception, so it disagrees with the code. `IsWon` uses the same guard at Model.cpp:376, and ModelTests.cpp:549-556 expects that guard not to throw.
- GameModel.Model.IsWon: guarded by `board.Some?`, whereas the code guards only on the win strategy being present (Model.cpp:376). `EndCurrentGame` destroys the board (Model.cpp:277) and clears the taken positions, but it leaves that strategy in place, and the strategy holds a reference to the destroyed board. After a game ends, the code therefore calls `Handle` on a strategy bound to a board that no longer exists. The model returns false there, which assumes that a strategy finding no taken position reports no win. `EndCurrentGame`'s `!IsWon()` rests on that assumption; the dangling reference itself is not modelled.
- `CreateNewGame` runs its command directly (Model.cpp:158-160) and does not push it on the history, so the model does not either. The test at ModelTests.cpp:355-364 expects a non-empty history after creating a game; that relies on behaviour the code does not show.
- After a drop into a full column, the code still checks for a win or tie (Model.cpp:229-250), and on one it restores the turn and notifies. The model does the same.
- The test at ModelTests.cpp:180-197 expects a player named "Jane Doe" who never joined the game, so it states nothing the model can keep.
- Integer widths are not modelled. Sizes, indices and the count of taken positions are unbounded naturals. The source keeps them in `size_t`, and nothing there bounds the grid size. The model therefore does not capture a wrap-around of rows x columns or of an index for sizes near that type's limit.
- Colour channels are unbounded naturals; the source keeps them in small integers. The transparent colour is taken to be (0, 0, 0, 0).
- The fields of `GameInformation` are left uninitialised by the source. The model's constructor sets only the player list.

## Findings

| source | as written | input that shows it | evidently intended | confidence | as-written member | corrected member |
|---|---|---|---|---|---|---|
| cxmodel/src/Model.cpp:158 | The new-game command receives the board, the players, the in-a-row value and `*this`, but neither the active/next indices nor the taken positions. `*this` goes there as it goes to `Board` at Model.cpp:305, as the collaborator to notify. Nothing at this call hands over the indices or the record. A game started while another is in progress keeps the old turn and the old record. | Start a three-player game and let the first player drop; the indices are then (1, 2). Create a two-player game: the next index 2 names no player, and one taken position remains on an empty board. | A new game starts with the first player active, the second next and no taken positions, as `ReinitializeCurrentGame` does at Model.cpp:309-313. | low, not executed: the command's body is not part of this model | Scenarios.StaleIndicesAfterRecreate | GameModel.Model.CreateNewGame |
