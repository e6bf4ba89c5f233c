/** An optional value, used for board cells and for the optional board of the model. */
module Options {
  datatype Option<+T> = None | Some(value: T)
}

/** Chip colours and players. A chip (disc) is identified by its colour. */
module Chips {

  /** An RGBA colour. */
  datatype ChipColor = ChipColor(red: nat, green: nat, blue: nat, alpha: nat)

  /** The colour of the "no disc" chip returned for empty or missing cells,
      and of the placeholder players; all components zero. */
  const Transparent := ChipColor(0, 0, 0, 0)

  /** A player: a name and the colour of the player's chips. */
  datatype Player = Player(name: string, color: ChipColor)

  /** Placeholders returned by the player queries when no game is configured. */
  const NoActivePlayer := Player("Woops (active)!", Transparent)
  const NoNextPlayer := Player("Woops! (next)", Transparent)
}
