/** The information gathered to start a game: grid size, in-a-row value and
    an append-only list of players, each a name and a disc colour name. */
module GameInfo {

  datatype PlayerInformation = PlayerInformation(name: string, discColor: string)

  class GameInformation {
    var gridWidth: nat
    var gridHeight: nat
    var inARowValue: nat
    var playersInformation: seq<PlayerInformation>

    /** No players yet; the grid size and in-a-row value are left to the caller. */
    constructor ()
      ensures playersInformation == []
    {
      playersInformation := [];
    }

    /** Appends a player at the end of the list and returns the new number of
        players; the players added before keep their places. */
    method AddPlayer(playerInformation: PlayerInformation) returns (count: nat)
      modifies this`playersInformation
      ensures playersInformation == old(playersInformation) + [playerInformation]
      ensures count == |playersInformation| == |old(playersInformation)| + 1
      ensures playersInformation[..|old(playersInformation)|] == old(playersInformation)
      ensures playersInformation[count - 1] == playerInformation
    {
      playersInformation := playersInformation + [playerInformation];
      count := |playersInformation|;
    }

    /** A copy of the players, in the order they were added. */
    function GetPlayersInformation(): (players: seq<PlayerInformation>)
      reads this`playersInformation
      ensures players == playersInformation
    {
      playersInformation
    }
  }

  /** Players added one after the other are listed in the order they were
      added, and each addition reports its rank in that order. */
  method TwoPlayersInOrder(first: PlayerInformation, second: PlayerInformation)
      returns (players: seq<PlayerInformation>, firstCount: nat, secondCount: nat)
    ensures players == [first, second]
    ensures firstCount == 1 && secondCount == 2
  {
    var info := new GameInformation();
    firstCount := info.AddPlayer(first);
    secondCount := info.AddPlayer(second);
    players := info.GetPlayersInformation();
  }
}
