/** The command history behind undo and redo: a bounded sequence of executed
    commands and a cursor separating the undoable ones (before it) from the
    redoable ones (at and after it). */
module Commands {
  import opened Chips
  import opened Boards

  /** A reversible action kept in the history: a chip of a colour dropped at a position. */
  datatype Command = DropChipCommand(color: ChipColor, position: Position)

  /** The history after executing cmd: the redoable tail is discarded, cmd is
      appended, and if the result exceeds the capacity the oldest command is dropped. */
  function Pushed(history: seq<Command>, cursor: nat, cmd: Command, capacity: nat): (h: seq<Command>)
    requires cursor <= |history| <= capacity
    ensures var kept := history[..cursor] + [cmd];
            && |h| <= capacity && |h| <= |kept|
            && (|h| == |kept| || |h| == capacity)
            && h == kept[|kept| - |h|..]
    ensures capacity > 0 ==> |h| > 0 && h[|h| - 1] == cmd
  {
    var kept := history[..cursor] + [cmd];
    if |kept| > capacity then kept[1..] else kept
  }

  class CommandStack {
    const capacity: nat
    var commands: seq<Command>
    var cursor: nat

    ghost predicate Valid()
      reads this
    {
      cursor <= |commands| <= capacity
    }

    constructor (capacity: nat)
      ensures Valid() && this.capacity == capacity
      ensures commands == [] && cursor == 0
    {
      this.capacity := capacity;
      commands := [];
      cursor := 0;
    }

    predicate IsEmpty()
      reads this
    {
      commands == []
    }

    predicate CanUndo()
      reads this
    {
      cursor > 0
    }

    predicate CanRedo()
      reads this
    {
      cursor < |commands|
    }

    /** Records an executed command; afterwards nothing is left to redo. */
    method Execute(cmd: Command)
      requires Valid()
      modifies this
      ensures Valid()
      ensures commands == Pushed(old(commands), old(cursor), cmd, capacity)
      ensures cursor == |commands| && !CanRedo()
    {
      commands := Pushed(commands, cursor, cmd, capacity);
      cursor := |commands|;
    }

    /** Steps back over the last undoable command, if any. */
    method Undo()
      requires Valid()
      modifies this
      ensures Valid() && commands == old(commands)
      ensures cursor == if old(CanUndo()) then old(cursor) - 1 else old(cursor)
    {
      if cursor > 0 {
        cursor := cursor - 1;
      }
    }

    /** Steps forward over the next redoable command, if any. */
    method Redo()
      requires Valid()
      modifies this
      ensures Valid() && commands == old(commands)
      ensures cursor == if old(CanRedo()) then old(cursor) + 1 else old(cursor)
    {
      if cursor < |commands| {
        cursor := cursor + 1;
      }
    }

    method Clear()
      requires Valid()
      modifies this
      ensures Valid() && IsEmpty() && cursor == 0
    {
      commands := [];
      cursor := 0;
    }
  }
}
