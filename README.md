# Minesweeper board engine and game session

A model of the core of a Unity Minesweeper game:

- the board engine `MinesweeperBoardManager`, which keeps a grid of cells, plants the mines on the first
  click around the clicked cell, flags cells, reveals cells with a flood fill from cells that count no
  mines, performs the "chord" reveal around a numbered cell, detects a win and discloses the board when
  the game ends;
- the session `MinesweeperGameManager`, which forwards cell clicks to the engine, plants the mines once
  per game, ignores every click after the game has ended, and restarts.

The project has two levels:

- **Value level** (modules `Geometry`, `MinesweeperCell`, `BoardCellController`, `MinePlacement`,
  `FloodReveal`, `BoardSpec`, and the functions and lemmas of `MinesweeperSession`). Every operation is a
  function of a `BoardState` (board as `map<Pos, Cell>`) or a `Session`, and the game's properties are
  lemmas about these functions.
- **Object level** (classes `BoardEngine.MinesweeperBoardManager` and
  `MinesweeperSession.MinesweeperGameManager`). The engine updates an `array2<Cell>` indexed `[y, x]`, as
  the source does, with loops carrying their invariants. Each method is proved to leave the object in the
  state the value-level function gives for its old state.

Where the source leaves the game's end as a to-do (`MinesweeperBoardManager.cs:198` and `:219`), while
`MinesweeperGameManager.cs:36` subscribes `EndGame` to an `OnGameEnded` event of the engine, the engine
here raises two fields, `lost` and `won`. The session reads them after every engine call and calls
`EndGame(won)` when either is set.

Random.Range is replaced by a caller-supplied stream `cands` of the positions it yields, in order.

Notes on the source, which the model follows as written:

- The flood reveal removes flags without adjusting the flag counter (`MinesweeperBoardManager.cs:253`).
  So the counter no longer matches the flags on the board after a flood. `FloodSpec` keeps the counter
  unchanged.
- ClearGame does not reset the flag counter; `ClearGameSpec` states this.
- The flood's visited set holds `(y, x)` pairs, both where it is filled and where it is queried. It is
  modelled with `Pos(x, y)` throughout, which is the same set up to renaming.
- `MinesweeperGameManager.cs` calls an engine constructor taking a board data object, and engine methods
  that are private in `MinesweeperBoardManager.cs`. The model treats the engine's methods as the
  session's interface, and the engine as built from the board's width and height and the mine amount.
- ClearGame creates cells with a parameterless constructor (`MinesweeperBoardManager.cs:57`) that
  `MinesweeperCell.cs:10-16` does not declare. The model takes it to give a cell with every field false or
  zero (`FreshCell`).

## Model

| member | source | states |
|---|---|---|
| Geometry.AllCells | Assets/Scripts/Minesweeper/MinesweeperBoardManager.cs:53-59 | the set of grid positions holds exactly the positions inside the bounds, and there are width * height of them |
| Geometry.IsUnavailableGridPos | Assets/Scripts/Minesweeper/MinesweeperBoardManager.cs:328-331 | true exactly when the position lies outside columns [0, width) or rows [0, height) |
| Geometry.Neighbors | Assets/Scripts/Minesweeper/MinesweeperBoardManager.cs:306-320 | GetNeighbors yields exactly the in-bounds positions of the 3x3 block around the centre, the centre included, at most nine |
| Geometry.NeighborsDistinct | Assets/Scripts/Minesweeper/MinesweeperBoardManager.cs:306-320 | GetNeighbors yields no position twice |
| Geometry.Block | Assets/Scripts/Minesweeper/MinesweeperBoardManager.cs:309-312 | the two loops visit exactly the nine positions adjacent to the centre, each once |
| Geometry.InGridOnly | Assets/Scripts/Minesweeper/MinesweeperBoardManager.cs:314 | skipping unavailable positions keeps exactly the in-bounds ones, and keeps them distinct |
| MinesweeperCell.Opened | Assets/Scripts/Minesweeper/MinesweeperBoardManager.cs:250-253 | a cell visited by the flood ends revealed and unflagged, with its mine and count unchanged |
| MinesweeperCell.DiscloseCell | Assets/Scripts/Minesweeper/MinesweeperBoardManager.cs:355-386 | on a win a mine becomes flagged and any other cell revealed; on a loss exactly an unflagged mine becomes revealed and no flag changes |
| MinePlacement.Chosen | Assets/Scripts/Minesweeper/MinesweeperBoardManager.cs:131-155 | the mines planted from the draws are distinct, never the first clicked position, all drawn, and at most the requested amount |
| MinePlacement.ChosenCount | Assets/Scripts/Minesweeper/MinesweeperBoardManager.cs:131-155 | exactly `amount` mines are planted when the draws hold that many distinct positions besides the first click; otherwise every such position becomes a mine |
| MinePlacement.ChosenStops | Assets/Scripts/Minesweeper/MinesweeperBoardManager.cs:131 | once the amount is reached, further draws change nothing |
| MinePlacement.ChosenNotDone | Assets/Scripts/Minesweeper/MinesweeperBoardManager.cs:131-135 | while mines are missing, a stream with enough admissible positions is not exhausted |
| MinePlacement.ChosenStep | Assets/Scripts/Minesweeper/MinesweeperBoardManager.cs:138-154 | one draw is skipped when it is the first cell or already mined, and otherwise plants one more mine |
| MinePlacement.OthersWithinGrid | Assets/Scripts/Minesweeper/MinesweeperBoardManager.cs:131-138 | the draws can hold at most width * height - 1 admissible positions, which bounds the mines the loop can ever place |
| MinePlacement.CountMines | Assets/Scripts/Minesweeper/MinesweeperBoardManager.cs:150-153 | a count of mines among some positions is zero exactly when none of them is a mine |
| MinePlacement.PlantOne | Assets/Scripts/Minesweeper/MinesweeperBoardManager.cs:143-153 | planting one mine keeps the board's positions; it is the reference the neighbour loop is proved equal to (PlantingComplete) and that keeps counts exact (PlantOneKeepsCounts) |
| MinePlacement.PlantAll | Assets/Scripts/Minesweeper/MinesweeperBoardManager.cs:143-154 | planting mines in turn makes exactly the listed positions mines in addition to the existing ones, and leaves every revealed and flagged state |
| MinePlacement.PlantingStep | Assets/Scripts/Minesweeper/MinesweeperBoardManager.cs:150-153 | one turn of the neighbour loop adds one to a neighbour's count unless it is a mine |
| MinePlacement.PlantingComplete | Assets/Scripts/Minesweeper/MinesweeperBoardManager.cs:145-153 | after the neighbour loop the board is the one-mine planting: the mine set, and each non-mine neighbour counting one more |
| MinePlacement.PlantOneKeepsCounts | Assets/Scripts/Minesweeper/MinesweeperBoardManager.cs:145-153 | planting one new mine keeps every non-mine cell's count equal to the mines among its neighbours |
| MinePlacement.PlantAllKeepsCounts | Assets/Scripts/Minesweeper/MinesweeperBoardManager.cs:143-154 | planting distinct new mines keeps every non-mine count exact |
| MinePlacement.NoMinesCountsCorrect | Assets/Scripts/Minesweeper/MinesweeperBoardManager.cs:53-59 | a board with no mines and all counts zero has exact counts |
| FloodReveal.Reach | Assets/Scripts/Minesweeper/MinesweeperBoardManager.cs:232-261 | the flood's reach: the grid positions joined to the seed by a chain of neighbours whose every member but the last counts zero |
| FloodReveal.ReachExactly | Assets/Scripts/Minesweeper/MinesweeperBoardManager.cs:232-261 | a set of positions reachable from the seed that holds the seed and all neighbours of its zero-count members is exactly the flood's reach |
| FloodReveal.ReachWithin | Assets/Scripts/Minesweeper/MinesweeperBoardManager.cs:256-260 | every closed set holding the seed holds the whole reach |
| FloodReveal.ReachStep | Assets/Scripts/Minesweeper/MinesweeperBoardManager.cs:257-260 | what the recursive call at a neighbour of a zero-count cell reaches is reachable from that cell |
| FloodReveal.ReachAvoidsMines | Assets/Scripts/Minesweeper/MinesweeperBoardManager.cs:204-206 | with exact counts, the flood started at a non-mine never reaches a mine |
| FloodReveal.OpenSet | Assets/Scripts/Minesweeper/MinesweeperBoardManager.cs:250-253 | the flood keeps the board's positions and which cells count zero |
| FloodReveal.OpenSetCompose | Assets/Scripts/Minesweeper/MinesweeperBoardManager.cs:257-260 | opening what one call checked and then what the next call adds is opening everything newly checked |
| FloodReveal.UncheckedShrinks | Assets/Scripts/Minesweeper/MinesweeperBoardManager.cs:238-244 | each call that gets past the checks marks one more position, so the recursion terminates |
| FloodReveal.FloodStep | Assets/Scripts/Minesweeper/MinesweeperBoardManager.cs:257-260 | after each recursive call every zero-count position checked, other than the centre, has all its neighbours checked |
| FloodReveal.FloodStepReach | Assets/Scripts/Minesweeper/MinesweeperBoardManager.cs:257-260 | the checked set stays reachable from the centre after each recursive call |
| FloodReveal.FloodEnd | Assets/Scripts/Minesweeper/MinesweeperBoardManager.cs:256-261 | after the loop every zero-count position checked has all its neighbours checked |
| FloodReveal.FloodStopsAtNumber | Assets/Scripts/Minesweeper/MinesweeperBoardManager.cs:256 | a numbered cell stops the flood, and what was checked is closed |
| BoardSpec.ClearGameSpec | Assets/Scripts/Minesweeper/MinesweeperBoardManager.cs:44-60 | ClearGame leaves a grid of fresh cells (no mine, flag or reveal), nothing revealed, exact counts, the game not started and the flag counter unchanged |
| BoardSpec.PlantMinesOnFreshBoard | Assets/Scripts/Minesweeper/MinesweeperBoardManager.cs:120-156 | on a board without mines, PlantMines places exactly `amount` distinct mines, the drawn ones, none at the first clicked cell, with every non-mine count exact |
| BoardSpec.PlantMinesSpec | Assets/Scripts/Minesweeper/MinesweeperBoardManager.cs:120-156 | PlantMines keeps the positions and every other field, and the mines afterwards are the earlier ones plus the drawn positions `Chosen` picks |
| BoardSpec.ToggleFlagSpec | Assets/Scripts/Minesweeper/MinesweeperBoardManager.cs:163-179 | on a revealed cell nothing changes; otherwise only that cell's flag flips, and the counter goes down by one when a flag is placed and up by one when one is removed; every other cell and field stays |
| BoardSpec.ToggleFlagTwice | Assets/Scripts/Minesweeper/MinesweeperBoardManager.cs:163-179 | toggling a flag twice restores the board and the flag counter |
| BoardSpec.Disclose | Assets/Scripts/Minesweeper/MinesweeperBoardManager.cs:353-390 | RevealWholeBoard applies the per-cell disclosure to every position and keeps the positions |
| BoardSpec.AllSafeRevealed | Assets/Scripts/Minesweeper/MinesweeperBoardManager.cs:336-346 | the win condition: every non-mine cell is revealed |
| BoardSpec.DiscloseOnWin | Assets/Scripts/Minesweeper/MinesweeperBoardManager.cs:358-372 | after the win disclosure every non-mine is revealed and every mine flagged |
| BoardSpec.DiscloseOnLoss | Assets/Scripts/Minesweeper/MinesweeperBoardManager.cs:374-385 | after the loss disclosure exactly the unflagged mines are newly revealed and nothing else changes |
| BoardSpec.AdvancesTrans | Assets/Scripts/Minesweeper/MinesweeperBoardManager.cs:186-224 | two reveal steps in a row advance the board as one |
| BoardSpec.CellsOnlyProgress | Assets/Scripts/Minesweeper/MinesweeperBoardManager.cs:247-253 | a step that only reveals cells, unflagging what it reveals, advances the board |
| BoardSpec.LoseSpec | Assets/Scripts/Minesweeper/MinesweeperBoardManager.cs:195-199 | revealing a mine ends the game lost with every mine shown, revealed or flagged |
| BoardSpec.FloodSpec | Assets/Scripts/Minesweeper/MinesweeperBoardManager.cs:204-207 | the flood opens exactly the cells reachable from the clicked cell along zero-count cells, keeps the flag counter, and reveals the clicked cell |
| BoardSpec.FloodSpecByClosure | Assets/Scripts/Minesweeper/MinesweeperBoardManager.cs:232-261 | the set the flood's recursion checks, being reachable and closed, is the flood's reach |
| BoardSpec.NumberSpec | Assets/Scripts/Minesweeper/MinesweeperBoardManager.cs:209-212 | a numbered cell is revealed alone |
| BoardSpec.WinCheckSpec | Assets/Scripts/Minesweeper/MinesweeperBoardManager.cs:215-220 | the game is won exactly when every non-mine is revealed, and then every mine is flagged; otherwise nothing changes |
| BoardSpec.OpenSpec | Assets/Scripts/Minesweeper/MinesweeperBoardManager.cs:193-213 | an unflagged, unrevealed cell ends revealed, and the game is lost exactly when it is a mine |
| BoardSpec.RevealCellSpec | Assets/Scripts/Minesweeper/MinesweeperBoardManager.cs:186-224 | RevealCell only advances the board; an unflagged cell ends revealed; the game is lost exactly when an unrevealed, unflagged mine is revealed |
| BoardSpec.RevealCellNoOp | Assets/Scripts/Minesweeper/MinesweeperBoardManager.cs:191 | RevealCell on a revealed or flagged cell changes nothing |
| BoardSpec.RevealCellOnMine | Assets/Scripts/Minesweeper/MinesweeperBoardManager.cs:195-199 | revealing a mine loses and reveals every unflagged mine |
| BoardSpec.RevealCellOnNumber | Assets/Scripts/Minesweeper/MinesweeperBoardManager.cs:209-212 | revealing a numbered cell reveals it and does not lose |
| BoardSpec.RevealCellOnZero | Assets/Scripts/Minesweeper/MinesweeperBoardManager.cs:204-207 | revealing a zero-count cell reveals the flood's whole reach, unflags its non-mines, does not lose, and with exact counts reveals no mine |
| BoardSpec.WinCheckCell | Assets/Scripts/Minesweeper/MinesweeperBoardManager.cs:215-220 | the win check leaves each cell as it was or discloses it as won |
| BoardSpec.RevealCellWin | Assets/Scripts/Minesweeper/MinesweeperBoardManager.cs:215-220 | after a reveal that acts, every non-mine revealed means the game is won with every mine flagged, and a new win means every non-mine is revealed |
| BoardSpec.FlaggedAround | Assets/Scripts/Minesweeper/MinesweeperBoardManager.cs:278-282 | the flag count around a cell is at most the number of neighbours |
| BoardSpec.RevealEach | Assets/Scripts/Minesweeper/MinesweeperBoardManager.cs:290-293 | revealing neighbours in turn keeps the board well formed |
| BoardSpec.RevealEachAdvances | Assets/Scripts/Minesweeper/MinesweeperBoardManager.cs:290-293 | revealing neighbours in turn only advances the board |
| BoardSpec.RevealEachStep | Assets/Scripts/Minesweeper/MinesweeperBoardManager.cs:292 | one turn of the chord's loop reveals its position exactly when it is unflagged at that turn |
| BoardSpec.ChordSpec | Assets/Scripts/Minesweeper/MinesweeperBoardManager.cs:269-297 | the chord reveal only advances the board |
| BoardSpec.ChordNoOpUnlessMatched | Assets/Scripts/Minesweeper/MinesweeperBoardManager.cs:275-287 | the chord changes nothing unless the centre is revealed, counts some mines and exactly that many neighbours are flagged |
| BoardSpec.RevealEachReveals | Assets/Scripts/Minesweeper/MinesweeperBoardManager.cs:290-293 | every unflagged position ends revealed, unless the game was won on the way |
| BoardSpec.ChordRevealsUnflagged | Assets/Scripts/Minesweeper/MinesweeperBoardManager.cs:287-293 | when the chord applies, every unflagged neighbour ends revealed, unless the game was won on the way |
| BoardSpec.RevealEachKeepsLost | Assets/Scripts/Minesweeper/MinesweeperBoardManager.cs:290-293 | revealing positions whose unflagged members are all safe never loses the game |
| BoardSpec.ChordSafeWithCorrectFlags | Assets/Scripts/Minesweeper/MinesweeperBoardManager.cs:269-297 | when every unflagged neighbour is safe, the chord never loses the game |
| BoardSpec.BoardClickSpec | Assets/Scripts/Minesweeper/MinesweeperBoardManager.cs:81-112 | the engine's dispatch keeps the grid; any other click value changes nothing; LEFT starts the game and a started game stays started; once started, no click moves a mine or changes a count |
| BoardSpec.BoardFirstClickIsSafe | Assets/Scripts/Minesweeper/MinesweeperBoardManager.cs:85-96 | the engine's first LEFT click on a cleared board plants exactly `amount` distinct mines, none at the clicked cell, with exact counts; it never loses and reveals the clicked cell unless flagged |
| BoardEngine.MinesweeperBoardManager.ClearGame | Assets/Scripts/Minesweeper/MinesweeperBoardManager.cs:44-60 | the grid is replaced by a new one of fresh cells and the game is not started; the flag counter stays |
| BoardEngine.MinesweeperBoardManager.Restart | Assets/Scripts/Minesweeper/MinesweeperBoardManager.cs:66-73 | the new state is ClearGame's |
| BoardEngine.MinesweeperBoardManager.PlantMines | Assets/Scripts/Minesweeper/MinesweeperBoardManager.cs:120-156 | the loop over the draws leaves the board with the mines that `Chosen` picks, planted in order |
| BoardEngine.MinesweeperBoardManager.PlaceMine | Assets/Scripts/Minesweeper/MinesweeperBoardManager.cs:145-153 | one new mine: the cell becomes a mine and each non-mine neighbour counts one more |
| BoardEngine.MinesweeperBoardManager.ToggleFlag | Assets/Scripts/Minesweeper/MinesweeperBoardManager.cs:163-179 | the new state is ToggleFlag's: no change on a revealed cell, otherwise the flag flips and the counter moves the other way |
| BoardEngine.MinesweeperBoardManager.IsGameWon | Assets/Scripts/Minesweeper/MinesweeperBoardManager.cs:336-346 | the scan answers true exactly when every non-mine cell is revealed |
| BoardEngine.MinesweeperBoardManager.RevealWholeBoard | Assets/Scripts/Minesweeper/MinesweeperBoardManager.cs:353-390 | every cell is disclosed for the win or the loss, nothing else changes |
| BoardEngine.MinesweeperBoardManager.OpenFloodCell | Assets/Scripts/Minesweeper/MinesweeperBoardManager.cs:247-253 | one flood visit reveals and unflags the cell and returns its count |
| BoardEngine.MinesweeperBoardManager.RevealNearbyEmptyCells | Assets/Scripts/Minesweeper/MinesweeperBoardManager.cs:232-261 | the flood opens exactly the newly checked positions, which are reachable from the centre, closed, and visited once each, so at most width * height visits; the checked set only grows and stays on the grid |
| BoardEngine.MinesweeperBoardManager.FloodFrom | Assets/Scripts/Minesweeper/MinesweeperBoardManager.cs:244-261 | from an unchecked in-bounds centre, the same as RevealNearbyEmptyCells, the centre being checked |
| BoardEngine.MinesweeperBoardManager.FloodNeighbours | Assets/Scripts/Minesweeper/MinesweeperBoardManager.cs:257-260 | the loop over a zero-count centre's neighbours checks every neighbour and opens exactly what it checks, reachable from the centre |
| BoardEngine.MinesweeperBoardManager.RevealCell | Assets/Scripts/Minesweeper/MinesweeperBoardManager.cs:186-224 | the new state is RevealCell's: nothing on a revealed or flagged cell; otherwise lose, flood or reveal, then the win check |
| BoardEngine.MinesweeperBoardManager.OpenCell | Assets/Scripts/Minesweeper/MinesweeperBoardManager.cs:193-213 | on an unrevealed, unflagged cell: a mine loses, a zero-count cell floods, any other cell is revealed |
| BoardEngine.MinesweeperBoardManager.RevealNearbyCells | Assets/Scripts/Minesweeper/MinesweeperBoardManager.cs:269-297 | the new state is the chord's |
| BoardEngine.MinesweeperBoardManager.RevealNeighbours | Assets/Scripts/Minesweeper/MinesweeperBoardManager.cs:290-293 | each position unflagged at its turn is revealed with RevealCell, in order |
| BoardEngine.MinesweeperBoardManager.CountFlags | Assets/Scripts/Minesweeper/MinesweeperBoardManager.cs:278-282 | the loop counts the flagged neighbours |
| BoardEngine.MinesweeperBoardManager.OnClickCell | Assets/Scripts/Minesweeper/MinesweeperBoardManager.cs:81-112 | the new state is BoardClickSpec's: LEFT plants the mines if the game has not started, then reveals; WHEEL chords; RIGHT toggles; anything else changes nothing |
| BoardEngine.MinesweeperBoardManager.constructor | Assets/Scripts/Minesweeper/MinesweeperBoardManager.cs:19-22 | Awake leaves a fresh board, the game not started |
| MinesweeperSession.EndGameSpec | Assets/Scripts/Minesweeper/MinesweeperGameManager.cs:100-103 | EndGame ends the session and changes nothing else, whether won or lost |
| MinesweeperSession.Notified | Assets/Scripts/Minesweeper/MinesweeperGameManager.cs:36 | after an engine call the session has ended exactly when it had already, or the board is lost or won |
| MinesweeperSession.ClickSpec | Assets/Scripts/Minesweeper/MinesweeperGameManager.cs:56-89 | a click on an ended session changes nothing; a started session stays started; LEFT starts it; a click that leaves the board lost or won ends it |
| MinesweeperSession.ReStartSpec | Assets/Scripts/Minesweeper/MinesweeperGameManager.cs:113-119 | ReStart leaves a session neither started nor ended over a grid of fresh cells |
| BoardSpec.SameMinesKeepCounts | Assets/Scripts/Minesweeper/MinesweeperGameManager.cs:56-89 | a step that moves no mine and changes no count keeps the counts exact and the mine set |
| BoardSpec.ToggleFlagSameMines | Assets/Scripts/Minesweeper/MinesweeperBoardManager.cs:163-179 | flagging moves no mine and raises no end of game |
| MinesweeperSession.ClickKeepsInvariant | Assets/Scripts/Minesweeper/MinesweeperGameManager.cs:56-89 | every click keeps the session invariant: exact counts, a lost or won board has ended the session, and nothing is planted before the first LEFT click |
| MinesweeperSession.FirstClickIsSafe | Assets/Scripts/Minesweeper/MinesweeperGameManager.cs:62-73 | the first LEFT click plants exactly the requested number of distinct mines, none at the clicked cell, never loses, and reveals the clicked cell unless flagged |
| MinesweeperSession.LaterClicksNeverReplant | Assets/Scripts/Minesweeper/MinesweeperGameManager.cs:66-70 | once the session has started no click moves a mine or changes a count |
| MinesweeperSession.ClickDispatch | Assets/Scripts/Minesweeper/MinesweeperGameManager.cs:60-88 | LEFT reveals an unflagged cell; WHEEL reveals the unflagged neighbours when the chord applies and otherwise changes nothing; RIGHT flips the flag of an unrevealed cell only; any other value changes nothing |
| MinesweeperSession.EndAndReStartKeepInvariant | Assets/Scripts/Minesweeper/MinesweeperGameManager.cs:100-119 | EndGame keeps the session invariant and ReStart restores it from any board |
| MinesweeperSession.MinesweeperGameManager.OnClickCell | Assets/Scripts/Minesweeper/MinesweeperGameManager.cs:56-89 | the new session is ClickSpec's: the ended guard, planting on the first LEFT, the dispatch, and EndGame when the board ends the game |
| MinesweeperSession.MinesweeperGameManager.DeliverGameEnded | Assets/Scripts/Minesweeper/MinesweeperGameManager.cs:36 | the engine's end-of-game event calls EndGame exactly when the board is lost or won |
| MinesweeperSession.MinesweeperGameManager.StartGame | Assets/Scripts/Minesweeper/MinesweeperGameManager.cs:94-97 | the session becomes started; nothing else changes |
| MinesweeperSession.MinesweeperGameManager.EndGame | Assets/Scripts/Minesweeper/MinesweeperGameManager.cs:100-103 | the session becomes ended; nothing else changes |
| MinesweeperSession.MinesweeperGameManager.ReStart | Assets/Scripts/Minesweeper/MinesweeperGameManager.cs:113-119 | both flags are cleared and the engine restarts on a new grid |
| MinesweeperSession.MinesweeperGameManager.constructor | Assets/Scripts/Minesweeper/MinesweeperGameManager.cs:15-20 | Awake creates an engine over a fresh board; the session starts neither started nor ended, with the session invariant |

## Left out

- Rendering (`MinesweeperRenderer`, `RenderBoard`, `DrawBoard`), the `OnBoardChanged` event and `Debug.Log`: they only display.
- Event subscription (`OnEnable`, `OnDisable`, `Start`, `OnDestroy`): the click and end-of-game events are modelled as direct calls.
- `MinesweeperGameManager.Update` and `gameTime`: they depend on the frame clock. ReStart's reset of `gameTime` is left out with it.
- Random.Range: the draws are a parameter `cands`.
- BoardEngine.MinesweeperBoardManager.PlantMines: requires that the draws hold at least `mineAmount` distinct positions other than the first click. The source loop runs until it finds them, and never ends when the grid has too few cells (see `MinePlacement.OthersWithinGrid`).
- MinesweeperSession.MinesweeperGameManager.OnClickCell: the same requirement on the draws for the first LEFT click.
- BoardEngine.MinesweeperBoardManager.RevealCell, ToggleFlag, RevealNearbyCells and OnClickCell, and MinesweeperSession.MinesweeperGameManager.OnClickCell: they require in-bounds coordinates, the session's even once it has ended, where the source returns before using them. In the source, clicks come from the board's own cells, and an out-of-bounds index would throw.
- Cells as objects: cells are values stored in the array. The source never shares a cell between two positions, so changing a field of a cell and storing a changed copy give the same board.
- BoardEngine.MinesweeperBoardManager.RevealNearbyEmptyCells: the visited set is passed in and returned rather than shared and mutated. `visits`, the order of first visits, is ghost.
- The null-conditional call `boardManager?.Restart()`: the engine is created with the session and never replaced, so it is never null here.
- 32-bit overflow of the flag counter and of the neighbour counts is not modelled: the counts stay below nine, and the flag counter changes by one per click.
