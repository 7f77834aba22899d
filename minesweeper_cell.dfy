/** One board position's state, and the per-cell effects of the engine's
    reveal and end-of-game disclosure. */
module MinesweeperCell {

  /** MinesweeperCell: a mine flag, a revealed flag, the number of mines
      counted around it and a player's flag. */
  datatype Cell = Cell(isMine: bool, isRevealed: bool, nearbyMineCount: int, isFlagged: bool)

  /** The cell ClearGame puts at every position. */
  const FreshCell := Cell(false, false, 0, false)

  /** What the flood reveal does to each cell it visits: reveal and unflag. */
  function Opened(c: Cell): (r: Cell)
    ensures r.isRevealed && !r.isFlagged
    ensures r.isMine == c.isMine && r.nearbyMineCount == c.nearbyMineCount
  {
    c.(isRevealed := true, isFlagged := false)
  }

  /** What RevealWholeBoard does to one cell. After a win every mine is
      flagged and every other cell revealed; after a loss exactly the
      unflagged mines are revealed. */
  function DiscloseCell(c: Cell, isGameWon: bool): (r: Cell)
    ensures r.isMine == c.isMine && r.nearbyMineCount == c.nearbyMineCount
    ensures isGameWon && c.isMine ==> r.isFlagged && r.isRevealed == c.isRevealed
    ensures isGameWon && !c.isMine ==> r.isRevealed && r.isFlagged == c.isFlagged
    ensures !isGameWon ==> r.isFlagged == c.isFlagged
    ensures !isGameWon ==> (r.isRevealed <==> c.isRevealed || (c.isMine && !c.isFlagged))
  {
    if isGameWon then
      if c.isMine then c.(isFlagged := true) else c.(isRevealed := true)
    else
      if c.isMine && !c.isFlagged then c.(isRevealed := true) else c
  }
}
