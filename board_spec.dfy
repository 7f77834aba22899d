/** The board engine's operations as functions of its state: what ClearGame,
    PlantMines, ToggleFlag, RevealCell, RevealNearbyCells, RevealWholeBoard
    and the engine's own click dispatch do, and the properties they keep. */
module BoardSpec {
  import opened Geometry
  import opened MinesweeperCell
  import opened MinePlacement
  import opened FloodReveal
  import opened BoardCellController

  /** The board engine's state: its grid dimensions, the cell at each
      position, the flag counter, its started flag, and the two game-ended
      notifications (lost, won) the engine raises where the game ends. */
  datatype BoardState = BoardState(
    width: nat, height: nat,
    cells: map<Pos, Cell>,
    flagCount: int,
    isGameStarted: bool,
    lost: bool, won: bool)

  /** Exactly the grid's positions hold a cell. */
  ghost predicate WellFormed(s: BoardState)
  {
    CoversGrid(s.width, s.height, s.cells.Keys)
  }

  function FreshCells(width: nat, height: nat): (r: map<Pos, Cell>)
    ensures CoversGrid(width, height, r.Keys)
  {
    map p | p in AllCells(width, height) :: FreshCell
  }

  /** No mines planted and nothing revealed; flags may have been placed. */
  predicate Unplanted(cells: map<Pos, Cell>)
  {
    forall p :: p in cells ==> !cells[p].isMine && !cells[p].isRevealed && cells[p].nearbyMineCount == 0
  }

  /** ClearGame: a fresh grid and a game not yet started. The flag counter
      is not reset. */
  function ClearGameSpec(s: BoardState): (r: BoardState)
    ensures WellFormed(r) && Unplanted(r.cells) && CountsCorrect(r.width, r.height, r.cells)
    ensures r.cells == FreshCells(s.width, s.height)
    ensures r.width == s.width && r.height == s.height && r.flagCount == s.flagCount
    ensures !r.isGameStarted && !r.lost && !r.won
  {
    var r := s.(cells := FreshCells(s.width, s.height), isGameStarted := false, lost := false, won := false);
    NoMinesCountsCorrect(r.width, r.height, r.cells);
    r
  }

  // ---------------------------------------------------------------- PlantMines

  /** PlantMines(firstX, firstY, amount) with `cands` the positions that
      Random.Range yields, in order. */
  function PlantMinesSpec(s: BoardState, firstX: int, firstY: int, amount: int, cands: seq<Pos>): (r: BoardState)
    ensures r.cells.Keys == s.cells.Keys
    ensures MineSet(r.cells) == MineSet(s.cells) + (Elements(Chosen(Pos(firstX, firstY), amount, cands)) * s.cells.Keys)
    ensures r == s.(cells := r.cells)
  {
    s.(cells := PlantAll(s.cells, Chosen(Pos(firstX, firstY), amount, cands)))
  }

  /** PlantMines on a board without mines places exactly `amount` distinct
      mines, none at the first clicked position, and leaves every non-mine
      cell counting the mines among its in-bounds neighbours. */
  lemma PlantMinesOnFreshBoard(s: BoardState, firstX: int, firstY: int, amount: int, cands: seq<Pos>)
    requires WellFormed(s) && Unplanted(s.cells)
    requires forall c :: c in cands ==> InGrid(s.width, s.height, c)
    requires 0 <= amount <= |Others(Pos(firstX, firstY), cands)|
    ensures var r := PlantMinesSpec(s, firstX, firstY, amount, cands);
      && WellFormed(r)
      && MineSet(r.cells) == Elements(Chosen(Pos(firstX, firstY), amount, cands))
      && |MineSet(r.cells)| == amount
      && (Pos(firstX, firstY) in r.cells ==> !r.cells[Pos(firstX, firstY)].isMine)
      && CountsCorrect(r.width, r.height, r.cells)
  {
    var ms := Chosen(Pos(firstX, firstY), amount, cands);
    var r := PlantMinesSpec(s, firstX, firstY, amount, cands);
    ChosenCount(Pos(firstX, firstY), amount, cands);
    DistinctElements(ms);
    assert MineSet(r.cells) == Elements(ms);
    NoMinesCountsCorrect(s.width, s.height, s.cells);
    PlantAllKeepsCounts(s.width, s.height, s.cells, ms);
  }

  // ---------------------------------------------------------------- ToggleFlag

  /** ToggleFlag: nothing happens on a revealed cell; otherwise the flag
      flips and the counter goes down when a flag is placed and up when one
      is removed. */
  function ToggleFlagSpec(s: BoardState, x: int, y: int): (r: BoardState)
    requires Pos(x, y) in s.cells
    ensures r.cells.Keys == s.cells.Keys
    ensures s.cells[Pos(x, y)].isRevealed ==> r == s
    ensures !s.cells[Pos(x, y)].isRevealed ==>
      && r.cells[Pos(x, y)] == s.cells[Pos(x, y)].(isFlagged := !s.cells[Pos(x, y)].isFlagged)
      && r.flagCount == (if r.cells[Pos(x, y)].isFlagged then s.flagCount - 1 else s.flagCount + 1)
    ensures forall q :: q in s.cells && q != Pos(x, y) ==> r.cells[q] == s.cells[q]
    ensures r.width == s.width && r.height == s.height && r.isGameStarted == s.isGameStarted
    ensures r.lost == s.lost && r.won == s.won
  {
    var c := s.cells[Pos(x, y)];
    if c.isRevealed then s
    else
      var c' := c.(isFlagged := !c.isFlagged);
      s.(cells := s.cells[Pos(x, y) := c'],
         flagCount := if c'.isFlagged then s.flagCount - 1 else s.flagCount + 1)
  }

  /** Toggling twice restores both the cell and the counter. */
  lemma ToggleFlagTwice(s: BoardState, x: int, y: int)
    requires Pos(x, y) in s.cells
    ensures ToggleFlagSpec(ToggleFlagSpec(s, x, y), x, y) == s
  {
    var p := Pos(x, y);
    if !s.cells[p].isRevealed {
      var once := ToggleFlagSpec(s, x, y);
      assert once.cells[p := s.cells[p]] == s.cells;
    }
  }

  // ---------------------------------------------------------- RevealWholeBoard

  /** RevealWholeBoard(isGameWon) applied to every cell. */
  function Disclose(cells: map<Pos, Cell>, isGameWon: bool): (r: map<Pos, Cell>)
    ensures r.Keys == cells.Keys
  {
    map p | p in cells :: DiscloseCell(cells[p], isGameWon)
  }

  predicate AllSafeRevealed(cells: map<Pos, Cell>)
  {
    forall p :: p in cells && !cells[p].isMine ==> cells[p].isRevealed
  }

  predicate AllMinesFlagged(cells: map<Pos, Cell>)
  {
    forall p :: p in cells && cells[p].isMine ==> cells[p].isFlagged
  }

  /** Every mine is shown: revealed, or flagged by the player. */
  predicate MinesShown(cells: map<Pos, Cell>)
  {
    forall p :: p in cells && cells[p].isMine ==> cells[p].isRevealed || cells[p].isFlagged
  }

  /** After a win every mine is flagged and every other cell revealed. */
  lemma DiscloseOnWin(cells: map<Pos, Cell>)
    ensures AllSafeRevealed(Disclose(cells, true)) && AllMinesFlagged(Disclose(cells, true))
  {
  }

  /** After a loss exactly the unflagged mines become revealed; nothing else
      changes. */
  lemma DiscloseOnLoss(cells: map<Pos, Cell>)
    ensures var r := Disclose(cells, false);
      && r.Keys == cells.Keys
      && (forall p :: p in cells && cells[p].isMine && !cells[p].isFlagged ==>
            r[p] == cells[p].(isRevealed := true))
      && (forall p :: p in cells && !(cells[p].isMine && !cells[p].isFlagged) ==> r[p] == cells[p])
  {
  }

  // ---------------------------------------------------------------- RevealCell

  /** The cell keeps its mine and its count. */
  predicate SameLayout(before: Cell, after: Cell)
  {
    before.isMine == after.isMine && before.nearbyMineCount == after.nearbyMineCount
  }

  /** How a cell may change while revealing: it never becomes unrevealed, it
      loses a flag only by being revealed, and gains one only as a mine
      flagged by the win disclosure. */
  predicate Progress(before: Cell, after: Cell, won: bool)
  {
    && (before.isRevealed ==> after.isRevealed)
    && (before.isFlagged && !after.isFlagged ==> after.isRevealed)
    && (!before.isFlagged && after.isFlagged ==> won && after.isMine)
  }

  /** The end-of-game disclosure has been done for each notification raised. */
  predicate Disclosed(s: BoardState)
  {
    && (s.won ==> AllSafeRevealed(s.cells))
    && (s.lost ==> MinesShown(s.cells))
  }

  /** RevealCell acts only on a cell that is neither revealed nor flagged. */
  predicate Hit(s: BoardState, x: int, y: int)
    requires Pos(x, y) in s.cells
  {
    !s.cells[Pos(x, y)].isRevealed && !s.cells[Pos(x, y)].isFlagged
  }

  /** The common frame of every step of a reveal: the grid, its layout, the
      flag counter and the started flag stay; cells only progress; the
      notifications stay raised; and the disclosures done stay done. */
  ghost predicate Advances(s: BoardState, r: BoardState)
  {
    && WellFormed(r) && r.width == s.width && r.height == s.height
    && r.cells.Keys == s.cells.Keys
    && r.flagCount == s.flagCount && r.isGameStarted == s.isGameStarted
    && (forall p :: p in s.cells ==> SameLayout(s.cells[p], r.cells[p]))
    && (forall p :: p in s.cells ==> Progress(s.cells[p], r.cells[p], r.won))
    && (s.won ==> r.won) && (s.lost ==> r.lost)
    && (Disclosed(s) ==> Disclosed(r))
  }

  lemma AdvancesTrans(a: BoardState, b: BoardState, c: BoardState)
    requires Advances(a, b) && Advances(b, c)
    ensures Advances(a, c)
  {
    forall p | p in a.cells ensures Progress(a.cells[p], c.cells[p], c.won) {
      ProgressTrans(a.cells[p], b.cells[p], c.cells[p], b.won, c.won);
    }
  }

  lemma ProgressTrans(a: Cell, b: Cell, c: Cell, w1: bool, w2: bool)
    requires Progress(a, b, w1) && Progress(b, c, w2) && SameLayout(b, c) && (w1 ==> w2)
    ensures Progress(a, c, w2)
  {
  }

  /** A step that only reveals cells (unflagging what it reveals), and
      touches nothing but the cells, advances the board. */
  lemma CellsOnlyProgress(s: BoardState, r: BoardState)
    requires WellFormed(s) && r == s.(cells := r.cells) && r.cells.Keys == s.cells.Keys
    requires forall p :: p in s.cells ==> SameLayout(s.cells[p], r.cells[p])
    requires forall p :: p in s.cells ==> Progress(s.cells[p], r.cells[p], false)
    ensures Advances(s, r)
  {
    if s.won && AllSafeRevealed(s.cells) {
      forall p | p in r.cells && !r.cells[p].isMine ensures r.cells[p].isRevealed {
        assert SameLayout(s.cells[p], r.cells[p]) && Progress(s.cells[p], r.cells[p], false);
      }
    }
    if s.lost && MinesShown(s.cells) {
      forall p | p in r.cells && r.cells[p].isMine ensures r.cells[p].isRevealed || r.cells[p].isFlagged {
        assert SameLayout(s.cells[p], r.cells[p]) && Progress(s.cells[p], r.cells[p], false);
      }
    }
  }

  /** The flood's effect on each cell is a progress. */
  lemma OpenSetProgress(cells: map<Pos, Cell>, reach: set<Pos>)
    ensures var r := OpenSet(cells, reach);
      forall p :: p in cells ==> SameLayout(cells[p], r[p]) && Progress(cells[p], r[p], false)
  {
  }

  /** Revealing an unflagged mine: the board is disclosed as lost. */
  function LoseSpec(s: BoardState): (r: BoardState)
    requires WellFormed(s)
    ensures Advances(s, r) && r.lost && r.won == s.won
    ensures MinesShown(r.cells)
  {
    s.(cells := Disclose(s.cells, false), lost := true)
  }

  /** Revealing an unflagged zero-count cell: the flood opens its reach. */
  ghost function FloodSpec(s: BoardState, x: int, y: int): (r: BoardState)
    requires WellFormed(s) && InGrid(s.width, s.height, Pos(x, y))
    ensures Advances(s, r) && r.lost == s.lost && r.won == s.won
    ensures r.cells == OpenSet(s.cells, Reach(s.width, s.height, ZeroCells(s.cells), Pos(x, y)))
    ensures r.cells[Pos(x, y)].isRevealed
  {
    var reach := Reach(s.width, s.height, ZeroCells(s.cells), Pos(x, y));
    ReachSeed(s.width, s.height, ZeroCells(s.cells), Pos(x, y));
    assert Pos(x, y) in reach;
    var r := s.(cells := OpenSet(s.cells, reach));
    OpenSetProgress(s.cells, reach);
    CellsOnlyProgress(s, r);
    r
  }

  /** A set of positions reachable from (x, y) that holds it and every
      neighbour of each of its zero-count members is what the flood opens. */
  lemma FloodSpecByClosure(s: BoardState, x: int, y: int, checked: set<Pos>)
    requires WellFormed(s) && InGrid(s.width, s.height, Pos(x, y))
    requires Pos(x, y) in checked && checked <= AllCells(s.width, s.height)
    requires ReachedFrom(s.width, s.height, ZeroCells(s.cells), Pos(x, y), checked)
    requires ClosedWithin(s.width, s.height, ZeroCells(s.cells), checked, checked)
    ensures FloodSpec(s, x, y) == s.(cells := OpenSet(s.cells, checked))
  {
    ReachExactly(s.width, s.height, ZeroCells(s.cells), Pos(x, y), checked);
  }

  /** Revealing an unflagged numbered cell: that cell alone is revealed. */
  function NumberSpec(s: BoardState, x: int, y: int): (r: BoardState)
    requires WellFormed(s) && InGrid(s.width, s.height, Pos(x, y))
    requires !s.cells[Pos(x, y)].isFlagged
    ensures Advances(s, r) && r.lost == s.lost && r.won == s.won
    ensures r.cells == s.cells[Pos(x, y) := s.cells[Pos(x, y)].(isRevealed := true)]
  {
    s.(cells := s.cells[Pos(x, y) := s.cells[Pos(x, y)].(isRevealed := true)])
  }

  /** The win check that ends RevealCell: once every non-mine cell is
      revealed, the board is disclosed as won. */
  function WinCheckSpec(s: BoardState): (r: BoardState)
    requires WellFormed(s)
    ensures Advances(s, r) && r.lost == s.lost
    ensures r.won == (s.won || AllSafeRevealed(s.cells))
    ensures AllSafeRevealed(s.cells) ==> AllSafeRevealed(r.cells) && AllMinesFlagged(r.cells)
    ensures !AllSafeRevealed(s.cells) ==> r == s
  {
    if AllSafeRevealed(s.cells) then
      DiscloseOnWin(s.cells);
      DiscloseWinAdvances(s);
      s.(cells := Disclose(s.cells, true), won := true)
    else s
  }

  lemma DiscloseWinAdvances(s: BoardState)
    requires WellFormed(s)
    ensures Advances(s, s.(cells := Disclose(s.cells, true), won := true))
  {
    var r := s.(cells := Disclose(s.cells, true), won := true);
    forall p | p in s.cells
      ensures SameLayout(s.cells[p], r.cells[p]) && Progress(s.cells[p], r.cells[p], true)
    {
      assert r.cells[p] == DiscloseCell(s.cells[p], true);
    }
    DiscloseOnWin(s.cells);
  }

  /** The first part of RevealCell on an unrevealed, unflagged cell: a mine
      discloses the board as lost, a zero-count cell floods and any other
      cell is revealed alone. */
  ghost function OpenSpec(s: BoardState, x: int, y: int): (r: BoardState)
    requires WellFormed(s) && InGrid(s.width, s.height, Pos(x, y))
    requires !s.cells[Pos(x, y)].isFlagged
    ensures Advances(s, r) && r.won == s.won
    ensures r.cells[Pos(x, y)].isRevealed
    ensures r.lost == (s.lost || s.cells[Pos(x, y)].isMine)
  {
    var c := s.cells[Pos(x, y)];
    if c.isMine then LoseSpec(s)
    else if c.nearbyMineCount == 0 then FloodSpec(s, x, y)
    else NumberSpec(s, x, y)
  }

  /** RevealCell(x, y). On an unrevealed, unflagged cell: a mine discloses
      the board as lost; a zero-count cell floods; any other cell is
      revealed. Then, if every non-mine cell is revealed, the board is
      disclosed as won. */
  ghost function RevealCellSpec(s: BoardState, x: int, y: int): (r: BoardState)
    requires WellFormed(s) && InGrid(s.width, s.height, Pos(x, y))
    ensures Advances(s, r)
    ensures !s.cells[Pos(x, y)].isFlagged ==> r.cells[Pos(x, y)].isRevealed
    ensures r.lost == (s.lost || (Hit(s, x, y) && s.cells[Pos(x, y)].isMine))
  {
    var c := s.cells[Pos(x, y)];
    if c.isRevealed || c.isFlagged then s
    else
      var mid := OpenSpec(s, x, y);
      var r := WinCheckSpec(mid);
      AdvancesTrans(s, mid, r);
      r
  }

  /** On a revealed or flagged cell RevealCell changes nothing. */
  lemma RevealCellNoOp(s: BoardState, x: int, y: int)
    requires WellFormed(s) && InGrid(s.width, s.height, Pos(x, y))
    requires !Hit(s, x, y)
    ensures RevealCellSpec(s, x, y) == s
  {
  }

  /** On an unflagged mine: the game is lost and every unflagged mine ends
      revealed. */
  lemma RevealCellOnMine(s: BoardState, x: int, y: int)
    requires WellFormed(s) && InGrid(s.width, s.height, Pos(x, y))
    requires Hit(s, x, y) && s.cells[Pos(x, y)].isMine
    ensures var r := RevealCellSpec(s, x, y);
      && r.lost
      && forall p :: p in s.cells && s.cells[p].isMine && !s.cells[p].isFlagged ==> r.cells[p].isRevealed
  {
  }

  /** On a non-mine with a nonzero count: that cell becomes revealed and
      the game is not lost. */
  lemma RevealCellOnNumber(s: BoardState, x: int, y: int)
    requires WellFormed(s) && InGrid(s.width, s.height, Pos(x, y))
    requires Hit(s, x, y) && !s.cells[Pos(x, y)].isMine && s.cells[Pos(x, y)].nearbyMineCount != 0
    ensures var r := RevealCellSpec(s, x, y);
      r.cells[Pos(x, y)].isRevealed && r.lost == s.lost
  {
  }

  /** On a non-mine with count zero: every cell the flood reaches ends
      revealed, the non-mines among them unflagged; with exact counts no
      mine is newly revealed. */
  lemma RevealCellOnZero(s: BoardState, x: int, y: int)
    requires WellFormed(s) && InGrid(s.width, s.height, Pos(x, y))
    requires Hit(s, x, y) && !s.cells[Pos(x, y)].isMine && s.cells[Pos(x, y)].nearbyMineCount == 0
    ensures var r := RevealCellSpec(s, x, y);
      && r.lost == s.lost
      && (forall q :: q in Reach(s.width, s.height, ZeroCells(s.cells), Pos(x, y)) ==>
            r.cells[q].isRevealed && (!r.cells[q].isMine ==> !r.cells[q].isFlagged))
      && (CountsCorrect(s.width, s.height, s.cells) ==>
            forall q :: q in s.cells && r.cells[q].isMine && r.cells[q].isRevealed ==> s.cells[q].isRevealed)
  {
    var reach := Reach(s.width, s.height, ZeroCells(s.cells), Pos(x, y));
    var mid := FloodSpec(s, x, y);
    var r := WinCheckSpec(mid);
    assert RevealCellSpec(s, x, y) == r;
    forall q | q in reach ensures r.cells[q].isRevealed && (!r.cells[q].isMine ==> !r.cells[q].isFlagged) {
      assert mid.cells[q] == Opened(s.cells[q]);
      WinCheckCell(mid, q);
    }
    if CountsCorrect(s.width, s.height, s.cells) {
      ReachAvoidsMines(s.width, s.height, s.cells, Pos(x, y));
      forall q | q in s.cells && r.cells[q].isMine && r.cells[q].isRevealed ensures s.cells[q].isRevealed {
        WinCheckCell(mid, q);
        assert mid.cells[q].isRevealed && mid.cells[q].isMine;
      }
    }
  }

  /** The win check leaves a cell as it is or discloses it as won. */
  lemma WinCheckCell(s: BoardState, q: Pos)
    requires WellFormed(s) && q in s.cells
    ensures var r := WinCheckSpec(s);
      r.cells[q] == s.cells[q] || r.cells[q] == DiscloseCell(s.cells[q], true)
  {
  }

  /** After a reveal that acts, the game is won exactly when every non-mine
      cell is revealed, and then every mine is flagged. */
  lemma RevealCellWin(s: BoardState, x: int, y: int)
    requires WellFormed(s) && InGrid(s.width, s.height, Pos(x, y))
    requires Hit(s, x, y)
    ensures var r := RevealCellSpec(s, x, y);
      && (AllSafeRevealed(r.cells) ==> r.won && AllMinesFlagged(r.cells))
      && (r.won ==> s.won || AllSafeRevealed(r.cells))
  {
  }

  // --------------------------------------------------------- RevealNearbyCells

  /** The number of flagged cells among the positions ns. */
  function FlaggedAround(cells: map<Pos, Cell>, ns: seq<Pos>): (n: nat)
    ensures n <= |ns|
    decreases |ns|
  {
    if ns == [] then 0
    else
      var last := ns[|ns| - 1];
      FlaggedAround(cells, ns[..|ns| - 1]) + if last in cells && cells[last].isFlagged then 1 else 0
  }

  /** RevealCell on each position of ns in turn that is unflagged when its
      turn comes. */
  ghost function RevealEach(s: BoardState, ns: seq<Pos>): (r: BoardState)
    requires WellFormed(s)
    requires forall n :: n in ns ==> InGrid(s.width, s.height, n)
    ensures WellFormed(r) && r.width == s.width && r.height == s.height
    decreases |ns|
  {
    if ns == [] then s
    else
      var n := ns[0];
      var s1 := if s.cells[n].isFlagged then s else RevealCellSpec(s, n.x, n.y);
      RevealEach(s1, ns[1..])
  }

  /** Revealing positions one after another advances the board. */
  lemma {:induction false} RevealEachAdvances(s: BoardState, ns: seq<Pos>)
    requires WellFormed(s)
    requires forall n :: n in ns ==> InGrid(s.width, s.height, n)
    ensures Advances(s, RevealEach(s, ns))
    decreases |ns|
  {
    if ns != [] {
      var n := ns[0];
      var s1 := if s.cells[n].isFlagged then s else RevealCellSpec(s, n.x, n.y);
      RevealEachAdvances(s1, ns[1..]);
      AdvancesTrans(s, s1, RevealEach(s1, ns[1..]));
    } else {
      forall p | p in s.cells ensures Progress(s.cells[p], s.cells[p], s.won) { }
    }
  }

  /** One turn of the chord's second loop: the position ns[k] is revealed
      unless it is flagged at its turn, and the rest follows. */
  lemma RevealEachStep(s: BoardState, ns: seq<Pos>, k: nat)
    requires WellFormed(s) && k < |ns|
    requires forall n :: n in ns ==> InGrid(s.width, s.height, n)
    ensures s.cells[ns[k]].isFlagged ==> RevealEach(s, ns[k..]) == RevealEach(s, ns[k + 1..])
    ensures !s.cells[ns[k]].isFlagged ==>
      RevealEach(s, ns[k..]) == RevealEach(RevealCellSpec(s, ns[k].x, ns[k].y), ns[k + 1..])
  {
    assert ns[k..][1..] == ns[k + 1..];
    assert ns[k] == Pos(ns[k].x, ns[k].y);
  }

  /** RevealNearbyCells(cx, cy), the chord reveal. Nothing happens unless
      the centre is revealed, counts nonzero mines and as many of its
      neighbours are flagged; then every neighbour that is unflagged at its
      turn is revealed with RevealCell. The neighbours include the centre
      itself, which is revealed already. */
  ghost function ChordSpec(s: BoardState, cx: int, cy: int): (r: BoardState)
    requires WellFormed(s) && InGrid(s.width, s.height, Pos(cx, cy))
    ensures Advances(s, r)
  {
    var c := s.cells[Pos(cx, cy)];
    var ns := Neighbors(s.width, s.height, cx, cy);
    if !c.isRevealed || c.nearbyMineCount == 0 then s
    else if c.nearbyMineCount != FlaggedAround(s.cells, ns) then s
    else
      RevealEachAdvances(s, ns);
      RevealEach(s, ns)
  }

  /** The chord acts only when the centre is revealed, counts nonzero mines,
      and exactly that many neighbours are flagged. */
  predicate ChordMatches(s: BoardState, cx: int, cy: int)
    requires Pos(cx, cy) in s.cells
  {
    var c := s.cells[Pos(cx, cy)];
    c.isRevealed && c.nearbyMineCount != 0
    && c.nearbyMineCount == FlaggedAround(s.cells, Neighbors(s.width, s.height, cx, cy))
  }

  lemma ChordNoOpUnlessMatched(s: BoardState, cx: int, cy: int)
    requires WellFormed(s) && InGrid(s.width, s.height, Pos(cx, cy))
    requires !ChordMatches(s, cx, cy)
    ensures ChordSpec(s, cx, cy) == s
  {
  }

  lemma {:induction false} RevealEachReveals(s: BoardState, ns: seq<Pos>)
    requires WellFormed(s)
    requires forall n :: n in ns ==> InGrid(s.width, s.height, n)
    ensures var r := RevealEach(s, ns);
      forall n :: n in ns && !s.cells[n].isFlagged ==> r.cells[n].isRevealed || r.won
    decreases |ns|
  {
    if ns != [] {
      var n := ns[0];
      var s1 := if s.cells[n].isFlagged then s else RevealCellSpec(s, n.x, n.y);
      var r := RevealEach(s, ns);
      assert r == RevealEach(s1, ns[1..]);
      RevealEachReveals(s1, ns[1..]);
      RevealEachAdvances(s1, ns[1..]);
      forall q | q in ns && !s.cells[q].isFlagged ensures r.cells[q].isRevealed || r.won {
        if q == n {
          assert n == Pos(n.x, n.y);
          assert s1.cells[q].isRevealed;
          assert Progress(s1.cells[q], r.cells[q], r.won);
        } else {
          assert q in ns[1..];
          assert Progress(s.cells[q], s1.cells[q], s1.won);
        }
      }
    }
  }

  /** When the chord acts, every neighbour that was unflagged ends revealed
      (unless the game was won on the way, which flags the mines). */
  lemma ChordRevealsUnflagged(s: BoardState, cx: int, cy: int)
    requires WellFormed(s) && InGrid(s.width, s.height, Pos(cx, cy))
    requires ChordMatches(s, cx, cy)
    ensures var r := ChordSpec(s, cx, cy);
      forall n :: n in Neighbors(s.width, s.height, cx, cy) && !s.cells[n].isFlagged ==>
        r.cells[n].isRevealed || r.won
  {
    RevealEachReveals(s, Neighbors(s.width, s.height, cx, cy));
  }

  /** Cells flagged in s0 that are no longer flagged have been revealed. */
  predicate UnflaggedOnlyByReveal(s0: BoardState, s: BoardState)
  {
    forall p :: p in s0.cells && p in s.cells && s0.cells[p].isFlagged && !s.cells[p].isFlagged ==>
      s.cells[p].isRevealed
  }

  lemma {:induction false} RevealEachKeepsLost(s0: BoardState, s: BoardState, ns: seq<Pos>)
    requires WellFormed(s) && s0.cells.Keys == s.cells.Keys
    requires forall n :: n in ns ==> InGrid(s.width, s.height, n)
    requires forall p :: p in s.cells ==> s0.cells[p].isMine == s.cells[p].isMine
    requires UnflaggedOnlyByReveal(s0, s)
    requires forall n :: n in ns && !s0.cells[n].isFlagged ==> !s0.cells[n].isMine
    ensures RevealEach(s, ns).lost == s.lost
    decreases |ns|
  {
    if ns != [] {
      var n := ns[0];
      var s1 := if s.cells[n].isFlagged then s else RevealCellSpec(s, n.x, n.y);
      assert n == Pos(n.x, n.y);
      assert s1.lost == s.lost;
      assert UnflaggedOnlyByReveal(s0, s1) by {
        forall p | p in s0.cells && p in s1.cells && s0.cells[p].isFlagged && !s1.cells[p].isFlagged
          ensures s1.cells[p].isRevealed
        {
          assert Progress(s.cells[p], s1.cells[p], s1.won);
        }
      }
      RevealEachKeepsLost(s0, s1, ns[1..]);
    }
  }

  /** When every unflagged neighbour is safe (the flags are right), the
      chord never loses the game. */
  lemma ChordSafeWithCorrectFlags(s: BoardState, cx: int, cy: int)
    requires WellFormed(s) && InGrid(s.width, s.height, Pos(cx, cy))
    requires forall n :: n in Neighbors(s.width, s.height, cx, cy) && !s.cells[n].isFlagged ==> !s.cells[n].isMine
    ensures ChordSpec(s, cx, cy).lost == s.lost
  {
    if ChordMatches(s, cx, cy) {
      RevealEachKeepsLost(s, s, Neighbors(s.width, s.height, cx, cy));
    }
  }

  // ------------------------------------------------------------- same mines

  /** Two boards with the same mines and counts at the same positions. */
  predicate SameMines(a: map<Pos, Cell>, b: map<Pos, Cell>)
  {
    a.Keys == b.Keys && forall p :: p in a ==> SameLayout(a[p], b[p])
  }

  lemma {:induction false} CountMinesSameMines(a: map<Pos, Cell>, b: map<Pos, Cell>, ns: seq<Pos>)
    requires SameMines(a, b)
    ensures CountMines(a, ns) == CountMines(b, ns)
    decreases |ns|
  {
    if ns != [] {
      CountMinesSameMines(a, b, ns[1..]);
    }
  }

  /** Revealing and flagging keep the counts exact and the mines where they
      are. */
  lemma SameMinesKeepCounts(width: int, height: int, a: map<Pos, Cell>, b: map<Pos, Cell>)
    requires SameMines(a, b) && CountsCorrect(width, height, a)
    ensures CountsCorrect(width, height, b)
    ensures MineSet(a) == MineSet(b)
  {
    forall p | p in b && !b[p].isMine
      ensures b[p].nearbyMineCount == CountMines(b, Neighbors(width, height, p.x, p.y))
    {
      assert SameLayout(a[p], b[p]);
      CountMinesSameMines(a, b, Neighbors(width, height, p.x, p.y));
    }
    forall p ensures p in MineSet(a) <==> p in MineSet(b) {
      if p in a {
        assert SameLayout(a[p], b[p]);
      }
    }
  }

  lemma AdvancesSameMines(s: BoardState, r: BoardState)
    requires Advances(s, r)
    ensures SameMines(s.cells, r.cells)
  {
  }

  /** ToggleFlag moves no mine, changes no count, and leaves the game's
      notifications as they were. */
  lemma ToggleFlagSameMines(s: BoardState, x: int, y: int)
    requires Pos(x, y) in s.cells
    ensures var r := ToggleFlagSpec(s, x, y);
      && SameMines(s.cells, r.cells)
      && r.width == s.width && r.height == s.height
      && r.lost == s.lost && r.won == s.won && r.isGameStarted == s.isGameStarted
      && (Unplanted(s.cells) ==> Unplanted(r.cells))
  {
  }

  // ------------------------------------------------------------ OnClickCell

  /** The engine's own click dispatch (MinesweeperBoardManager.OnClickCell):
      the first LEFT click plants the mines around the clicked cell, then
      every LEFT reveals, WHEEL chords, RIGHT toggles a flag, and any other
      value does nothing. */
  ghost function BoardClickSpec(s: BoardState, amount: int, x: int, y: int, click: ClickType, cands: seq<Pos>): (r: BoardState)
    requires WellFormed(s) && (click.Undefined? || InGrid(s.width, s.height, Pos(x, y)))
    requires forall c :: c in cands ==> InGrid(s.width, s.height, c)
    ensures WellFormed(r) && r.width == s.width && r.height == s.height
    ensures click.Undefined? ==> r == s
    ensures s.isGameStarted || click.Left? ==> r.isGameStarted
    ensures s.isGameStarted ==> SameMines(s.cells, r.cells)
  {
    match click
    case Left =>
      var planted := if !s.isGameStarted then PlantMinesSpec(s, x, y, amount, cands).(isGameStarted := true) else s;
      var r := RevealCellSpec(planted, x, y);
      AdvancesSameMines(planted, r);
      r
    case Wheel =>
      var r := ChordSpec(s, x, y);
      AdvancesSameMines(s, r);
      r
    case Right =>
      ToggleFlagSameMines(s, x, y);
      ToggleFlagSpec(s, x, y)
    case Undefined(_) => s
  }

  /** The engine's first LEFT click on a cleared board plants exactly
      `amount` distinct mines, none at the clicked cell, with every non-mine
      count exact; so it never loses the game, and it reveals the clicked
      cell unless the player had flagged it. */
  lemma BoardFirstClickIsSafe(s: BoardState, amount: int, x: int, y: int, cands: seq<Pos>)
    requires WellFormed(s) && Unplanted(s.cells) && !s.isGameStarted && !s.lost
    requires InGrid(s.width, s.height, Pos(x, y))
    requires forall c :: c in cands ==> InGrid(s.width, s.height, c)
    requires 0 <= amount <= |Others(Pos(x, y), cands)|
    ensures var r := BoardClickSpec(s, amount, x, y, Left, cands);
      && r.isGameStarted && !r.lost
      && MineSet(r.cells) == Elements(Chosen(Pos(x, y), amount, cands))
      && |MineSet(r.cells)| == amount
      && !r.cells[Pos(x, y)].isMine
      && (!s.cells[Pos(x, y)].isFlagged ==> r.cells[Pos(x, y)].isRevealed)
      && CountsCorrect(r.width, r.height, r.cells)
  {
    var planted := PlantMinesSpec(s, x, y, amount, cands).(isGameStarted := true);
    PlantMinesOnFreshBoard(s, x, y, amount, cands);
    var revealed := RevealCellSpec(planted, x, y);
    AdvancesSameMines(planted, revealed);
    SameMinesKeepCounts(s.width, s.height, planted.cells, revealed.cells);
    assert SameLayout(planted.cells[Pos(x, y)], revealed.cells[Pos(x, y)]);
  }
}
