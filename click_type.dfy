/** The kinds of click a board cell forwards to the game. */
module BoardCellController {

  /** ClickType's three named values. A C# enum variable can also hold any
      other integer, which the dispatchers send to their default branch;
      `Undefined` stands for those values. */
  datatype ClickType = Left | Wheel | Right | Undefined(code: int)
}
