/** The session that drives the board engine (MinesweeperGameManager): a
    started flag, so that the mines are planted once, on the first LEFT
    click, and an ended flag, raised when the engine reports the game lost
    or won, after which every click is ignored. */
module MinesweeperSession {
  import opened Geometry
  import opened MinesweeperCell
  import opened MinePlacement
  import opened BoardCellController
  import opened BoardSpec
  import opened BoardEngine

  /** The session's state: the engine's board and the two session flags. */
  datatype Session = Session(board: BoardState, isGameStarted: bool, isGameEnded: bool)

  /** EndGame(isWon): the session ends, whether the game was won or lost. */
  function EndGameSpec(g: Session, isWon: bool): (r: Session)
    ensures r.isGameEnded
    ensures r.board == g.board && r.isGameStarted == g.isGameStarted
  {
    g.(isGameEnded := true)
  }

  /** The engine's end-of-game notification reaching EndGame after a board
      call: a board left lost or won ends the session. */
  function Notified(g: Session): (r: Session)
    ensures r.board == g.board && r.isGameStarted == g.isGameStarted
    ensures r.isGameEnded == (g.isGameEnded || g.board.lost || g.board.won)
  {
    if g.board.lost || g.board.won then EndGameSpec(g, g.board.won) else g
  }

  /** OnClickCell(x, y, clickType), with `cands` the positions Random.Range
      yields should this click plant the mines. Ignored once the session has
      ended; otherwise LEFT plants the mines first if the session has not
      started, then reveals; WHEEL chords; RIGHT toggles a flag; any other
      value does nothing. */
  ghost function ClickSpec(g: Session, amount: int, x: int, y: int, click: ClickType, cands: seq<Pos>): (r: Session)
    requires WellFormed(g.board)
    requires click.Undefined? || InGrid(g.board.width, g.board.height, Pos(x, y))
    requires forall c :: c in cands ==> InGrid(g.board.width, g.board.height, c)
    ensures WellFormed(r.board) && r.board.width == g.board.width && r.board.height == g.board.height
    ensures g.isGameEnded ==> r == g
    ensures g.isGameStarted ==> r.isGameStarted
    ensures !g.isGameEnded && click.Left? ==> r.isGameStarted
    ensures !g.isGameEnded && !click.Undefined? && (r.board.lost || r.board.won) ==> r.isGameEnded
  {
    if g.isGameEnded then g
    else
      var b := g.board;
      match click
      case Left =>
        var planted := if !g.isGameStarted then PlantMinesSpec(b, x, y, amount, cands) else b;
        Notified(g.(board := RevealCellSpec(planted, x, y), isGameStarted := true))
      case Wheel => Notified(g.(board := ChordSpec(b, x, y)))
      case Right => Notified(g.(board := ToggleFlagSpec(b, x, y)))
      case Undefined(_) => g
  }

  /** ReStart: the session is neither started nor ended, and the board is
      cleared. */
  function ReStartSpec(g: Session): (r: Session)
    requires WellFormed(g.board)
    ensures WellFormed(r.board) && !r.isGameStarted && !r.isGameEnded
    ensures r.board.cells == FreshCells(g.board.width, g.board.height)
    ensures Unplanted(r.board.cells) && !r.board.lost && !r.board.won
    ensures r.board.width == g.board.width && r.board.height == g.board.height
  {
    Session(ClearGameSpec(g.board), false, false)
  }

  // ---------------------------------------------------------------- invariant

  /** What holds of every session reached by clicks, ends and restarts from
      a fresh board: the board is well formed and every non-mine cell counts
      its neighbouring mines; a board that is lost or won has ended the
      session; and before the first LEFT click nothing is planted or
      revealed. */
  ghost predicate SessionInvariant(g: Session)
  {
    && WellFormed(g.board)
    && CountsCorrect(g.board.width, g.board.height, g.board.cells)
    && (g.board.lost || g.board.won ==> g.isGameEnded)
    && (!g.isGameStarted ==> Unplanted(g.board.cells) && !g.board.lost && !g.board.won)
  }

  /** A click keeps the session invariant. */
  lemma ClickKeepsInvariant(g: Session, amount: int, x: int, y: int, click: ClickType, cands: seq<Pos>)
    requires SessionInvariant(g)
    requires click.Undefined? || InGrid(g.board.width, g.board.height, Pos(x, y))
    requires forall c :: c in cands ==> InGrid(g.board.width, g.board.height, c)
    requires click.Left? && !g.isGameStarted ==> 0 <= amount <= |Others(Pos(x, y), cands)|
    ensures SessionInvariant(ClickSpec(g, amount, x, y, click, cands))
  {
    var b := g.board;
    if !g.isGameEnded {
      match click
      case Left =>
        var planted := if !g.isGameStarted then PlantMinesSpec(b, x, y, amount, cands) else b;
        if !g.isGameStarted {
          PlantMinesOnFreshBoard(b, x, y, amount, cands);
        }
        var revealed := RevealCellSpec(planted, x, y);
        AdvancesSameMines(planted, revealed);
        SameMinesKeepCounts(b.width, b.height, planted.cells, revealed.cells);
      case Wheel =>
        var chorded := ChordSpec(b, x, y);
        if !g.isGameStarted {
          assert !ChordMatches(b, x, y);
          ChordNoOpUnlessMatched(b, x, y);
        }
        AdvancesSameMines(b, chorded);
        SameMinesKeepCounts(b.width, b.height, b.cells, chorded.cells);
      case Right =>
        var toggled := ToggleFlagSpec(b, x, y);
        ToggleFlagSameMines(b, x, y);
        SameMinesKeepCounts(b.width, b.height, b.cells, toggled.cells);
      case Undefined(_) =>
    }
  }

  /** The first LEFT click plants exactly `amount` distinct mines, none at
      the clicked cell, so it never loses the game; it starts the session
      and reveals the clicked cell unless the player had flagged it. */
  lemma FirstClickIsSafe(g: Session, amount: int, x: int, y: int, cands: seq<Pos>)
    requires SessionInvariant(g) && !g.isGameStarted && !g.isGameEnded
    requires InGrid(g.board.width, g.board.height, Pos(x, y))
    requires forall c :: c in cands ==> InGrid(g.board.width, g.board.height, c)
    requires 0 <= amount <= |Others(Pos(x, y), cands)|
    ensures var r := ClickSpec(g, amount, x, y, Left, cands);
      && r.isGameStarted && !r.board.lost
      && MineSet(r.board.cells) == Elements(Chosen(Pos(x, y), amount, cands))
      && |MineSet(r.board.cells)| == amount
      && !r.board.cells[Pos(x, y)].isMine
      && (!g.board.cells[Pos(x, y)].isFlagged ==> r.board.cells[Pos(x, y)].isRevealed)
  {
    var planted := PlantMinesSpec(g.board, x, y, amount, cands);
    PlantMinesOnFreshBoard(g.board, x, y, amount, cands);
    var revealed := RevealCellSpec(planted, x, y);
    AdvancesSameMines(planted, revealed);
    SameMinesKeepCounts(g.board.width, g.board.height, planted.cells, revealed.cells);
    assert SameLayout(planted.cells[Pos(x, y)], revealed.cells[Pos(x, y)]);
  }

  /** Once the session has started no click moves a mine: the mines are
      planted exactly once. */
  lemma LaterClicksNeverReplant(g: Session, amount: int, x: int, y: int, click: ClickType, cands: seq<Pos>)
    requires WellFormed(g.board) && g.isGameStarted
    requires click.Undefined? || InGrid(g.board.width, g.board.height, Pos(x, y))
    requires forall c :: c in cands ==> InGrid(g.board.width, g.board.height, c)
    ensures var r := ClickSpec(g, amount, x, y, click, cands);
      r.isGameStarted && SameMines(g.board.cells, r.board.cells)
  {
    var b := g.board;
    if !g.isGameEnded {
      match click
      case Left =>
        AdvancesSameMines(b, RevealCellSpec(b, x, y));
      case Wheel =>
        AdvancesSameMines(b, ChordSpec(b, x, y));
      case Right =>
        ToggleFlagSameMines(b, x, y);
      case Undefined(_) =>
    }
  }

  /** What each click does to the board of a running session: LEFT reveals
      the clicked cell unless it is flagged; WHEEL, when the chord applies,
      reveals every unflagged neighbour (or the game is won on the way) and
      otherwise changes nothing; RIGHT flips the flag of an unrevealed cell
      and leaves a revealed one alone; any other value changes nothing. */
  lemma ClickDispatch(g: Session, amount: int, x: int, y: int, click: ClickType, cands: seq<Pos>)
    requires WellFormed(g.board) && !g.isGameEnded
    requires click.Undefined? || InGrid(g.board.width, g.board.height, Pos(x, y))
    requires forall c :: c in cands ==> InGrid(g.board.width, g.board.height, c)
    ensures var r := ClickSpec(g, amount, x, y, click, cands);
      && (click.Left? && !g.board.cells[Pos(x, y)].isFlagged ==> r.board.cells[Pos(x, y)].isRevealed)
      && (click.Wheel? && ChordMatches(g.board, x, y) ==>
            forall n :: n in Neighbors(g.board.width, g.board.height, x, y) && !g.board.cells[n].isFlagged ==>
              r.board.cells[n].isRevealed || r.board.won)
      && (click.Wheel? && !ChordMatches(g.board, x, y) ==> r.board == g.board)
      && (click.Right? ==>
            r.board.cells[Pos(x, y)].isFlagged == (g.board.cells[Pos(x, y)].isFlagged != !g.board.cells[Pos(x, y)].isRevealed))
      && (click.Undefined? ==> r == g)
  {
    match click
    case Left =>
    case Wheel =>
      if ChordMatches(g.board, x, y) {
        ChordRevealsUnflagged(g.board, x, y);
      } else {
        ChordNoOpUnlessMatched(g.board, x, y);
      }
    case Right =>
    case Undefined(_) =>
  }

  /** Ending keeps the invariant, and a restart restores it from any board. */
  lemma EndAndReStartKeepInvariant(g: Session, isWon: bool)
    requires WellFormed(g.board)
    ensures SessionInvariant(g) ==> SessionInvariant(EndGameSpec(g, isWon))
    ensures SessionInvariant(ReStartSpec(g))
  {
  }

  // -------------------------------------------------------------- the object

  class MinesweeperGameManager {
    /** Created in Awake and never replaced. */
    const boardManager: MinesweeperBoardManager
    /** The configured number of mines (boardData.MineAmount). */
    const mineAmount: int
    var isGameStarted: bool
    var isGameEnded: bool

    ghost predicate Valid()
      reads this, boardManager, boardManager.grid
    {
      boardManager.Valid()
    }

    ghost function State(): (g: Session)
      requires Valid()
      reads this, boardManager, boardManager.grid
      ensures WellFormed(g.board)
    {
      Session(boardManager.State(), isGameStarted, isGameEnded)
    }

    /** Awake: a board engine over a fresh board; the session is neither
        started nor ended. */
    constructor(width: nat, height: nat, mineAmount: int)
      ensures Valid() && fresh(boardManager) && fresh(boardManager.grid)
      ensures this.mineAmount == mineAmount
      ensures State() == Session(BoardState(width, height, FreshCells(width, height), 0, false, false, false), false, false)
      ensures SessionInvariant(State())
    {
      boardManager := new MinesweeperBoardManager(width, height, mineAmount);
      this.mineAmount := mineAmount;
      isGameStarted := false;
      isGameEnded := false;
      new;
      NoMinesCountsCorrect(width, height, FreshCells(width, height));
    }

    /** OnClickCell(x, y, clickType). */
    method OnClickCell(x: int, y: int, clickType: ClickType, cands: seq<Pos>)
      requires Valid()
      requires clickType.Undefined? || InGrid(boardManager.width, boardManager.height, Pos(x, y))
      requires forall c :: c in cands ==> InGrid(boardManager.width, boardManager.height, c)
      requires clickType.Left? && !isGameStarted && !isGameEnded ==> mineAmount <= |Others(Pos(x, y), cands)|
      modifies this, boardManager, boardManager.grid
      ensures Valid() && boardManager.grid == old(boardManager.grid)
      ensures State() == ClickSpec(old(State()), mineAmount, x, y, clickType, cands)
    {
      if isGameEnded {
        return;
      }
      match clickType
      case Left =>
        if !isGameStarted {
          boardManager.PlantMines(x, y, mineAmount, cands);
          isGameStarted := true;
        }
        boardManager.RevealCell(x, y);
        DeliverGameEnded();
      case Wheel =>
        boardManager.RevealNearbyCells(x, y);
        DeliverGameEnded();
      case Right =>
        boardManager.ToggleFlag(x, y);
        DeliverGameEnded();
      case Undefined(_) =>
    }

    /** The engine's OnGameEnded event, subscribed to EndGame: raised when
        the board has been left lost or won. */
    method DeliverGameEnded()
      requires Valid()
      modifies this
      ensures Valid() && State() == Notified(old(State()))
    {
      if boardManager.lost || boardManager.won {
        EndGame(boardManager.won);
      }
    }

    /** StartGame: the session counts as started, so no later LEFT click
        plants mines. */
    method StartGame()
      requires Valid()
      modifies this
      ensures Valid() && State() == old(State()).(isGameStarted := true)
    {
      isGameStarted := true;
    }

    /** EndGame(isWon). */
    method EndGame(isWon: bool)
      requires Valid()
      modifies this
      ensures Valid() && State() == EndGameSpec(old(State()), isWon)
    {
      isGameEnded := true;
    }

    /** ReStart: clears both flags and restarts the board engine (the timer
        is not modelled). */
    method ReStart()
      requires Valid()
      modifies this, boardManager
      ensures Valid() && fresh(boardManager.grid)
      ensures State() == ReStartSpec(old(State()))
    {
      isGameStarted := false;
      isGameEnded := false;
      boardManager.Restart();
    }
  }
}
