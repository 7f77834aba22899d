/** The board engine as the object it is: a grid of cells updated in place,
    a flag counter and a started flag, with every operation proved to take
    the board to the state its specification function in BoardSpec names. */
module BoardEngine {
  import opened Geometry
  import opened MinesweeperCell
  import opened MinePlacement
  import opened FloodReveal
  import opened BoardCellController
  import opened BoardSpec

  class MinesweeperBoardManager {
    const width: nat
    const height: nat
    const mineAmount: int
    /** The board, indexed [y, x]. */
    var grid: array2<Cell>
    /** The board as a map from positions to cells. */
    ghost var cells: map<Pos, Cell>
    var flagCount: int
    var isGameStarted: bool
    /** Raised where the engine ends the game lost, and where it ends it won. */
    var lost: bool
    var won: bool

    ghost predicate Valid()
      reads this, grid
    {
      && grid.Length0 == height && grid.Length1 == width
      && CoversGrid(width, height, cells.Keys)
      && forall i, j {:trigger grid[i, j]} :: 0 <= i < height && 0 <= j < width ==> grid[i, j] == cells[Pos(j, i)]
    }

    ghost function State(): (s: BoardState)
      requires Valid()
      reads this, grid
      ensures WellFormed(s)
    {
      BoardState(width, height, cells, flagCount, isGameStarted, lost, won)
    }

    /** Awake: the engine starts with a cleared board. */
    constructor(width: nat, height: nat, mineAmount: int)
      ensures Valid() && fresh(grid)
      ensures this.width == width && this.height == height && this.mineAmount == mineAmount
      ensures State() == BoardState(width, height, FreshCells(width, height), 0, false, false, false)
    {
      this.width := width;
      this.height := height;
      this.mineAmount := mineAmount;
      grid := new Cell[0, 0];
      flagCount := 0;
      isGameStarted := false;
      lost := false;
      won := false;
      new;
      ClearGame();
    }

    /** ClearGame: a new grid of fresh cells; the game is not started. */
    method ClearGame()
      modifies this
      ensures Valid() && fresh(grid)
      ensures State() == BoardState(width, height, FreshCells(width, height), old(flagCount), false, false, false)
    {
      isGameStarted := false;
      lost := false;
      won := false;
      var board := new Cell[height, width];
      for y := 0 to height
        modifies board
        invariant forall i, j :: 0 <= i < y && 0 <= j < width ==> board[i, j] == FreshCell
      {
        for x := 0 to width
          modifies board
          invariant forall i, j :: 0 <= i < y && 0 <= j < width ==> board[i, j] == FreshCell
          invariant forall j :: 0 <= j < x ==> board[y, j] == FreshCell
        {
          board[y, x] := FreshCell;
        }
      }
      grid := board;
      cells := FreshCells(width, height);
    }

    /** Restart: clears the board (rendering is not modelled). */
    method Restart()
      requires Valid()
      modifies this
      ensures Valid() && fresh(grid)
      ensures State() == ClearGameSpec(old(State()))
    {
      ClearGame();
    }

    /** Stores one cell of the board. */
    method SetCell(x: int, y: int, cell: Cell)
      requires Valid() && InGrid(width, height, Pos(x, y))
      modifies this, grid
      ensures Valid() && grid == old(grid)
      ensures cells == old(cells)[Pos(x, y) := cell]
      ensures flagCount == old(flagCount) && isGameStarted == old(isGameStarted)
      ensures lost == old(lost) && won == old(won)
    {
      grid[y, x] := cell;
      cells := cells[Pos(x, y) := cell];

    }

    /** PlantMines(firstX, firstY, mineAmount), the random draws being the
        positions of `cands` in order. The stream must hold `mineAmount`
        distinct positions other than the first one, or the loop would
        never end. */
    method PlantMines(firstX: int, firstY: int, mineAmount: int, cands: seq<Pos>)
      requires Valid()
      requires forall c :: c in cands ==> InGrid(width, height, c)
      requires mineAmount <= |Others(Pos(firstX, firstY), cands)|
      modifies this, grid
      ensures Valid() && grid == old(grid)
      ensures State() == PlantMinesSpec(old(State()), firstX, firstY, mineAmount, cands)
    {
      ghost var first := Pos(firstX, firstY);
      ghost var placed: seq<Pos> := [];
      var mineCoordinates: set<Pos> := {};
      var minesPlaced := 0;
      var i := 0;
      while minesPlaced < mineAmount
        invariant Valid() && grid == old(grid)
        invariant 0 <= i <= |cands|
        invariant placed == Chosen(first, mineAmount, cands[..i])
        invariant minesPlaced == |placed| && mineCoordinates == Elements(placed)
        invariant flagCount == old(flagCount) && isGameStarted == old(isGameStarted)
        invariant lost == old(lost) && won == old(won)
        invariant cells == PlantAll(old(cells), placed)
        decreases |cands| - i
      {
        ChosenNotDone(first, mineAmount, cands, i, placed);
        var x, y := cands[i].x, cands[i].y;
        assert Pos(x, y) == cands[i] && cands[i] in cands;
        ChosenStep(first, mineAmount, cands, i, placed, old(cells), Pos(x, y));
        i := i + 1;
        if x == firstX && y == firstY {
          continue;
        }
        if Pos(x, y) !in mineCoordinates {
          PlaceMine(x, y);
          minesPlaced := minesPlaced + 1;
          mineCoordinates := mineCoordinates + {Pos(x, y)};
          placed := placed + [Pos(x, y)];
        }
      }
      ChosenStops(first, mineAmount, cands, i);
    }

    /** The body of PlantMines' loop for one new mine at (x, y): it becomes
        a mine and every in-bounds neighbour that is not a mine counts one
        more. */
    method PlaceMine(x: int, y: int)
      requires Valid() && InGrid(width, height, Pos(x, y))
      modifies this, grid
      ensures Valid() && grid == old(grid)
      ensures cells == PlantOne(old(cells), Pos(x, y))
      ensures flagCount == old(flagCount) && isGameStarted == old(isGameStarted)
      ensures lost == old(lost) && won == old(won)
    {
      ghost var before := cells;
      ghost var m := Pos(x, y);
      SetCell(x, y, grid[y, x].(isMine := true));
      var ns := Neighbors(width, height, x, y);
      PlantingStart(before, m, ns);
      NeighborsDistinct(width, height, x, y);
      for k := 0 to |ns|
        invariant Valid() && grid == old(grid)
        invariant flagCount == old(flagCount) && isGameStarted == old(isGameStarted)
        invariant lost == old(lost) && won == old(won)
        invariant cells == Planting(before, m, Elements(ns[..k]))
      {
        var n := ns[k];
        assert n in ns && n == Pos(n.x, n.y);
        var cell := grid[n.y, n.x];
        PlantingStep(before, m, ns, k, cells, cell);
        if !cell.isMine {
          SetCell(n.x, n.y, cell.(nearbyMineCount := cell.nearbyMineCount + 1));
        }
      }
      assert ns[..|ns|] == ns;
      PlantingComplete(width, height, before, m);
    }

    /** ToggleFlag(x, y). */
    method ToggleFlag(x: int, y: int)
      requires Valid() && InGrid(width, height, Pos(x, y))
      modifies this, grid
      ensures Valid() && grid == old(grid)
      ensures State() == ToggleFlagSpec(old(State()), x, y)
    {
      var cell := grid[y, x];
      if cell.isRevealed {
        return;
      }
      cell := cell.(isFlagged := !cell.isFlagged);
      SetCell(x, y, cell);
      flagCount := if cell.isFlagged then flagCount - 1 else flagCount + 1;
    }

    /** IsGameWon: a scan of the grid for an unrevealed cell that is not a
        mine. */
    method IsGameWon() returns (r: bool)
      requires Valid()
      ensures r == AllSafeRevealed(cells)
    {
      for y := 0 to height
        invariant forall i, j :: 0 <= i < y && 0 <= j < width ==> grid[i, j].isMine || grid[i, j].isRevealed
      {
        for x := 0 to width
          invariant forall i, j :: 0 <= i < y && 0 <= j < width ==> grid[i, j].isMine || grid[i, j].isRevealed
          invariant forall j :: 0 <= j < x ==> grid[y, j].isMine || grid[y, j].isRevealed
        {
          var cell := grid[y, x];
          if !cell.isMine && !cell.isRevealed {
            assert Pos(x, y) in cells;
            return false;
          }
        }
      }
      forall p | p in cells && !cells[p].isMine ensures cells[p].isRevealed {
        assert grid[p.y, p.x] == cells[Pos(p.x, p.y)];
      }
      return true;
    }

    /** RevealWholeBoard(isGameWon): every cell of the grid, row by row. */
    method RevealWholeBoard(isGameWon: bool)
      requires Valid()
      modifies this, grid
      ensures Valid() && grid == old(grid)
      ensures State() == old(State()).(cells := Disclose(old(cells), isGameWon))
    {
      ghost var before := cells;
      for y := 0 to height
        modifies grid
        invariant forall i, j {:trigger grid[i, j]} :: 0 <= i < height && 0 <= j < width ==>
          grid[i, j] == if i < y then DiscloseCell(before[Pos(j, i)], isGameWon) else before[Pos(j, i)]
      {
        for x := 0 to width
          modifies grid
          invariant forall i, j {:trigger grid[i, j]} :: 0 <= i < height && 0 <= j < width ==>
            grid[i, j] == if i < y || (i == y && j < x) then DiscloseCell(before[Pos(j, i)], isGameWon)
                          else before[Pos(j, i)]
        {
          var cell := grid[y, x];
          if isGameWon {
            if cell.isMine {
              cell := cell.(isFlagged := true);
            } else {
              cell := cell.(isRevealed := true);
            }
          } else {
            if cell.isMine {
              if !cell.isFlagged {
                cell := cell.(isRevealed := true);
              }
            }
          }
          grid[y, x] := cell;
        }
      }
      cells := Disclose(before, isGameWon);
    }

    /** One visit of the flood: the cell is revealed and its flag removed
        (the flag counter is left as it was); its count is returned. */
    method OpenFloodCell(x: int, y: int) returns (count: int)
      requires Valid() && InGrid(width, height, Pos(x, y))
      modifies this, grid
      ensures Valid() && grid == old(grid)
      ensures State() == old(State()).(cells := OpenSet(old(cells), {Pos(x, y)}))
      ensures count == old(cells)[Pos(x, y)].nearbyMineCount
    {
      var cell := grid[y, x];
      OpenSetOne(cells, Pos(x, y));
      if !cell.isRevealed {
        cell := cell.(isRevealed := true);
      }
      if cell.isFlagged {
        cell := cell.(isFlagged := false);
      }
      SetCell(x, y, cell);
      count := cell.nearbyMineCount;
    }

    /** RevealNearbyEmptyCells(centerX, centerY, checkedCells): the flood.
        The visited set is threaded through the calls; `visits` lists, in
        order, the positions this call reveals. What is new in the returned
        set is reachable from the centre, each of its zero-count members has
        all its neighbours in the set, and exactly that part of the board
        is revealed and unflagged. */
    method RevealNearbyEmptyCells(centerX: int, centerY: int, checkedCells: set<Pos>, ghost zero: set<Pos>)
      returns (checked: set<Pos>, ghost visits: seq<Pos>)
      requires Valid() && checkedCells <= AllCells(width, height)
      requires zero == ZeroCells(cells)
      modifies this, grid
      ensures Valid() && grid == old(grid)
      ensures State() == old(State()).(cells := OpenSet(old(cells), checked - checkedCells))
      ensures checkedCells <= checked <= AllCells(width, height)
      ensures InGrid(width, height, Pos(centerX, centerY)) ==> Pos(centerX, centerY) in checked
      ensures ReachedFrom(width, height, zero, Pos(centerX, centerY), checked - checkedCells)
      ensures ClosedWithin(width, height, zero, checked - checkedCells, checked)
      ensures Distinct(visits) && Elements(visits) == checked - checkedCells
      ensures |visits| <= width * height
      decreases |AllCells(width, height) - checkedCells|, 2
    {
      var c := Pos(centerX, centerY);
      if c in checkedCells {
        return checkedCells, [];
      }
      if IsUnavailableGridPos(width, height, centerX, centerY) {
        return checkedCells, [];
      }
      checked, visits := FloodFrom(c, checkedCells, zero);
      DistinctElements(visits);
      SubsetCard(Elements(visits), AllCells(width, height));
    }

    /** The body of RevealNearbyEmptyCells once the centre `c` is known to be
        on the grid and not yet checked. */
    method FloodFrom(c: Pos, checkedCells: set<Pos>, ghost zero: set<Pos>)
      returns (checked: set<Pos>, ghost visits: seq<Pos>)
      requires Valid() && checkedCells <= AllCells(width, height)
      requires zero == ZeroCells(cells)
      requires InGrid(width, height, c) && c !in checkedCells
      modifies this, grid
      ensures Valid() && grid == old(grid)
      ensures State() == old(State()).(cells := OpenSet(old(cells), checked - checkedCells))
      ensures checkedCells + {c} <= checked <= AllCells(width, height)
      ensures ReachedFrom(width, height, zero, c, checked - checkedCells)
      ensures ClosedWithin(width, height, zero, checked - checkedCells, checked)
      ensures Distinct(visits) && Elements(visits) == checked - checkedCells
      decreases |AllCells(width, height) - checkedCells|, 1
    {
      checked := checkedCells + {c};
      visits := [c];
      FloodStart(width, height, zero, c, checkedCells);
      ReachSeed(width, height, zero, c);
      assert ReachedFrom(width, height, zero, c, checked - checkedCells);
      var count := OpenFloodCell(c.x, c.y);
      if count != 0 {
        FloodStopsAtNumber(width, height, zero, c, checkedCells);
        return;
      }
      var more;
      ghost var moreVisits;
      more, moreVisits := FloodNeighbours(c, checkedCells, checked, zero);
      OpenSetCompose(old(cells), checkedCells, checked, more);
      DiffCompose(checkedCells, checked, more);
      DistinctConcat(visits, moreVisits);
      visits := visits + moreVisits;
      checked := more;
      FloodEnd(width, height, zero, c, checkedCells, checked);
    }

    /** The loop of RevealNearbyEmptyCells over the neighbours of a
        zero-count centre `c`: each is flooded in turn with the visited set
        threaded through. */
    method FloodNeighbours(c: Pos, checkedCells: set<Pos>, start: set<Pos>, ghost zero: set<Pos>)
      returns (checked: set<Pos>, ghost visits: seq<Pos>)
      requires Valid() && zero == ZeroCells(cells)
      requires InGrid(width, height, c) && c in zero && c !in checkedCells
      requires FloodSoFar(width, height, zero, c, checkedCells, start)
      requires ReachedFrom(width, height, zero, c, start - checkedCells)
      modifies this, grid
      ensures Valid() && grid == old(grid)
      ensures State() == old(State()).(cells := OpenSet(old(cells), checked - start))
      ensures start <= checked
      ensures FloodSoFar(width, height, zero, c, checkedCells, checked)
      ensures ReachedFrom(width, height, zero, c, checked - checkedCells)
      ensures forall n {:trigger n in Neighbors(width, height, c.x, c.y)} ::
                n in Neighbors(width, height, c.x, c.y) ==> n in checked
      ensures Distinct(visits) && Elements(visits) == checked - start
      decreases |AllCells(width, height) - checkedCells|, 0
    {
      var ns := Neighbors(width, height, c.x, c.y);
      checked := start;
      visits := [];
      for k := 0 to |ns|
        invariant Valid() && grid == old(grid)
        invariant State() == old(State()).(cells := OpenSet(old(cells), checked - start))
        invariant start <= checked
        invariant FloodSoFar(width, height, zero, c, checkedCells, checked)
        invariant ReachedFrom(width, height, zero, c, checked - checkedCells)
        invariant forall i :: 0 <= i < k ==> ns[i] in checked
        invariant Distinct(visits) && Elements(visits) == checked - start
      {
        var n := ns[k];
        assert n in ns;
        UncheckedShrinks(AllCells(width, height), checkedCells, checked, c);
        var more;
        ghost var moreVisits;
        more, moreVisits := RevealNearbyEmptyCells(n.x, n.y, checked, zero);
        FloodStep(width, height, zero, c, checkedCells, checked, more);
        FloodStepReach(width, height, zero, c, checkedCells, checked, n, more);
        OpenSetCompose(old(cells), start, checked, more);
        DiffCompose(start, checked, more);
        DistinctConcat(visits, moreVisits);
        PrefixCovered(ns, k, checked, more);
        visits := visits + moreVisits;
        checked := more;
      }
      assert forall n :: n in ns ==> n in checked;
    }

    /** RevealCell(x, y), raising `lost` and `won` where the game ends. */
    method RevealCell(x: int, y: int)
      requires Valid() && InGrid(width, height, Pos(x, y))
      modifies this, grid
      ensures Valid() && grid == old(grid)
      ensures State() == RevealCellSpec(old(State()), x, y)
    {
      var cell := grid[y, x];
      if cell.isRevealed || cell.isFlagged {
        return;
      }
      OpenCell(x, y);
      ghost var mid := State();
      var isWon := IsGameWon();
      if isWon {
        RevealWholeBoard(true);
        won := true;
      }
      assert State() == WinCheckSpec(mid);
    }

    /** The part of RevealCell before the win check, on an unrevealed,
        unflagged cell. */
    method OpenCell(x: int, y: int)
      requires Valid() && InGrid(width, height, Pos(x, y))
      requires !cells[Pos(x, y)].isRevealed && !cells[Pos(x, y)].isFlagged
      modifies this, grid
      ensures Valid() && grid == old(grid)
      ensures State() == OpenSpec(old(State()), x, y)
    {
      var cell := grid[y, x];
      ghost var s := State();
      if cell.isMine {
        RevealWholeBoard(false);
        lost := true;
        assert State() == LoseSpec(s);
      } else if cell.nearbyMineCount == 0 {
        var checked, _ := RevealNearbyEmptyCells(x, y, {}, ZeroCells(cells));
        assert checked - {} == checked;
        FloodSpecByClosure(s, x, y, checked);
      } else {
        SetCell(x, y, cell.(isRevealed := true));
        assert State() == NumberSpec(s, x, y);
      }
    }

    /** RevealNearbyCells(centerX, centerY), the chord reveal. */
    method RevealNearbyCells(centerX: int, centerY: int)
      requires Valid() && InGrid(width, height, Pos(centerX, centerY))
      modifies this, grid
      ensures Valid() && grid == old(grid)
      ensures State() == ChordSpec(old(State()), centerX, centerY)
    {
      var centerCell := grid[centerY, centerX];
      if !centerCell.isRevealed || centerCell.nearbyMineCount == 0 {
        return;
      }
      var ns := Neighbors(width, height, centerX, centerY);
      var flagCnt := CountFlags(ns);
      if centerCell.nearbyMineCount != flagCnt {
        return;
      }
      RevealNeighbours(ns);
    }

    /** The second loop of RevealNearbyCells: RevealCell on each position of
        ns that is unflagged when its turn comes. */
    method RevealNeighbours(ns: seq<Pos>)
      requires Valid()
      requires forall n :: n in ns ==> InGrid(width, height, n)
      modifies this, grid
      ensures Valid() && grid == old(grid)
      ensures State() == RevealEach(old(State()), ns)
    {
      for k := 0 to |ns|
        invariant Valid() && grid == old(grid)
        invariant RevealEach(State(), ns[k..]) == RevealEach(old(State()), ns)
      {
        var n := ns[k];
        assert n in ns && n == Pos(n.x, n.y);
        RevealEachStep(State(), ns, k);
        if !grid[n.y, n.x].isFlagged {
          RevealCell(n.x, n.y);
        }
      }
    }

    /** The first loop of RevealNearbyCells: how many of the positions ns
        hold a flag. */
    method CountFlags(ns: seq<Pos>) returns (flagCnt: nat)
      requires Valid()
      requires forall n :: n in ns ==> InGrid(width, height, n)
      ensures flagCnt == FlaggedAround(cells, ns)
    {
      flagCnt := 0;
      for k := 0 to |ns|
        invariant flagCnt == FlaggedAround(cells, ns[..k])
      {
        assert ns[..k + 1][..k] == ns[..k];
        assert ns[k] in ns;
        if grid[ns[k].y, ns[k].x].isFlagged {
          flagCnt := flagCnt + 1;
        }
      }
      assert ns[..|ns|] == ns;
    }

    /** The engine's own click handler. */
    method OnClickCell(x: int, y: int, clickType: ClickType, cands: seq<Pos>)
      requires Valid()
      requires clickType.Undefined? || InGrid(width, height, Pos(x, y))
      requires forall c :: c in cands ==> InGrid(width, height, c)
      requires clickType.Left? && !isGameStarted ==> mineAmount <= |Others(Pos(x, y), cands)|
      modifies this, grid
      ensures Valid() && grid == old(grid)
      ensures State() == BoardClickSpec(old(State()), mineAmount, x, y, clickType, cands)
    {
      match clickType
      case Left =>
        if !isGameStarted {
          PlantMines(x, y, mineAmount, cands);
          isGameStarted := true;
        }
        RevealCell(x, y);
      case Wheel =>
        RevealNearbyCells(x, y);
      case Right =>
        ToggleFlag(x, y);
      case Undefined(_) =>
    }
  }

  /** One more position of `ns` is covered once the visited set grows to `more`. */
  lemma PrefixCovered(ns: seq<Pos>, k: nat, before: set<Pos>, more: set<Pos>)
    requires k < |ns| && before <= more && ns[k] in more
    requires forall i :: 0 <= i < k ==> ns[i] in before
    ensures forall i :: 0 <= i < k + 1 ==> ns[i] in more
  {
  }

  lemma DistinctConcat(a: seq<Pos>, b: seq<Pos>)
    requires Distinct(a) && Distinct(b) && Elements(a) !! Elements(b)
    ensures Distinct(a + b) && Elements(a + b) == Elements(a) + Elements(b)
  {
    forall i, j | 0 <= i < j < |a + b| ensures (a + b)[i] != (a + b)[j] {
      if i < |a| && j >= |a| {
        assert (a + b)[i] in Elements(a) && (a + b)[j] in Elements(b);
      }
    }
  }
}
