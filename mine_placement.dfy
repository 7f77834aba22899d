/** Mine placement (PlantMines) on the value level: which positions a stream
    of random candidates turns into mines, what planting one mine does to the
    grid, and the neighbour counts that result. */
module MinePlacement {
  import opened Geometry
  import opened MinesweeperCell

  function Elements(s: seq<Pos>): set<Pos>
  {
    set p | p in s
  }

  /** The candidates that may become mines: every position drawn other than
      the first clicked one. */
  function Others(first: Pos, cands: seq<Pos>): set<Pos>
  {
    set c | c in cands && c != first
  }

  /** The mines PlantMines places, in order, when Random.Range yields the
      positions `cands`: a draw is skipped when it is the first clicked
      position or already a mine, and drawing stops once `amount` mines
      are placed. Defined on a prefix of the stream so that it follows the
      loop one draw at a time. */
  function Chosen(first: Pos, amount: int, cands: seq<Pos>): (r: seq<Pos>)
    ensures Distinct(r)
    ensures first !in r
    ensures forall p :: p in r ==> p in cands
    ensures |r| <= if amount < 0 then 0 else amount
    decreases |cands|
  {
    if cands == [] then []
    else
      var prev := Chosen(first, amount, cands[..|cands| - 1]);
      var c := cands[|cands| - 1];
      if |prev| < amount && c != first && c !in prev then prev + [c] else prev
  }

  lemma {:induction false} DistinctElements(s: seq<Pos>)
    requires Distinct(s)
    ensures |Elements(s)| == |s|
  {
    if s != [] {
      var init := s[..|s| - 1];
      DistinctElements(init);
      assert Elements(s) == Elements(init) + {s[|s| - 1]};
      assert s[|s| - 1] !in Elements(init);
    }
  }

  /** While fewer than `amount` mines are placed, every admissible draw so
      far became a mine; so the placement reaches `amount` exactly when the
      stream holds that many distinct positions other than the first. */
  lemma {:induction false} ChosenCount(first: Pos, amount: int, cands: seq<Pos>)
    requires amount >= 0
    ensures var r := Chosen(first, amount, cands);
      && |r| == (if amount <= |Others(first, cands)| then amount else |Others(first, cands)|)
      && (|r| < amount ==> Elements(r) == Others(first, cands))
    decreases |cands|
  {
    if cands != [] {
      var init := cands[..|cands| - 1];
      var c := cands[|cands| - 1];
      var prev := Chosen(first, amount, init);
      ChosenCount(first, amount, init);
      assert cands == init + [c];
      OthersSnoc(first, init, c);
      if |prev| < amount && c != first && c !in prev {
        ElementsSnoc(prev, c);
        DistinctElements(prev + [c]);
        DistinctElements(prev);
      } else if c != first && |prev| < amount {
        assert c in Elements(prev);
        assert Others(first, cands) == Others(first, init);
      } else if c != first {
        assert |Others(first, cands)| >= |Others(first, init)|;
      }
    }
  }

  lemma ElementsSnoc(s: seq<Pos>, c: Pos)
    ensures Elements(s + [c]) == Elements(s) + {c}
  {
    forall p ensures p in Elements(s + [c]) <==> p in Elements(s) + {c} {
      assert p in s + [c] <==> p in s || p == c;
    }
  }

  lemma OthersSnoc(first: Pos, s: seq<Pos>, c: Pos)
    ensures c == first ==> Others(first, s + [c]) == Others(first, s)
    ensures c != first ==> Others(first, s + [c]) == Others(first, s) + {c}
  {
    forall p ensures p in Others(first, s + [c]) <==> p in Others(first, s) || (p == c && c != first) {
      assert p in s + [c] <==> p in s || p == c;
    }
  }

  /** Once `amount` mines are placed, later draws change nothing: the loop
      may stop consuming the stream there. */
  lemma {:induction false} ChosenStops(first: Pos, amount: int, cands: seq<Pos>, i: nat)
    requires i <= |cands|
    requires |Chosen(first, amount, cands[..i])| >= amount
    ensures Chosen(first, amount, cands) == Chosen(first, amount, cands[..i])
    decreases |cands|
  {
    if i < |cands| {
      var init := cands[..|cands| - 1];
      assert init[..i] == cands[..i];
      ChosenStops(first, amount, init, i);
    } else {
      assert cands[..i] == cands;
    }
  }

  /** The stream can only hold `amount` admissible positions when the grid
      has room for them beside the first clicked cell. */
  lemma OthersWithinGrid(width: nat, height: nat, first: Pos, cands: seq<Pos>)
    requires InGrid(width, height, first)
    requires forall c :: c in cands ==> InGrid(width, height, c)
    ensures |Others(first, cands)| <= width * height - 1
  {
    var room := AllCells(width, height) - {first};
    assert Others(first, cands) <= room;
    assert |room| == width * height - 1;
    SubsetCard(Others(first, cands), room);
  }

  lemma {:induction false} SubsetCard(a: set<Pos>, b: set<Pos>)
    requires a <= b
    ensures |a| <= |b|
    decreases |b|
  {
    if b != {} {
      var x :| x in b;
      SubsetCard(a - {x}, b - {x});
    }
  }

  /** While fewer than `amount` mines are placed, the stream is not
      exhausted (given that it holds enough admissible positions). */
  lemma ChosenNotDone(first: Pos, amount: int, cands: seq<Pos>, i: nat, placed: seq<Pos>)
    requires i <= |cands| && amount <= |Others(first, cands)|
    requires placed == Chosen(first, amount, cands[..i]) && |placed| < amount
    ensures i < |cands|
  {
    if i == |cands| {
      assert cands[..i] == cands;
      ChosenCount(first, amount, cands);
    }
  }

  /** One turn of PlantMines' loop: the drawn position `c` is skipped when
      it is the first click or already a mine, and otherwise planted. */
  lemma ChosenStep(first: Pos, amount: int, cands: seq<Pos>, i: nat, placed: seq<Pos>,
                   cells: map<Pos, Cell>, c: Pos)
    requires i < |cands| && c == cands[i]
    requires placed == Chosen(first, amount, cands[..i]) && |placed| < amount
    ensures c == first || c in Elements(placed) ==> Chosen(first, amount, cands[..i + 1]) == placed
    ensures c != first && c !in Elements(placed) ==>
      && Chosen(first, amount, cands[..i + 1]) == placed + [c]
      && PlantAll(cells, placed + [c]) == PlantOne(PlantAll(cells, placed), c)
      && Elements(placed + [c]) == Elements(placed) + {c}
  {
    assert cands[..i + 1][..i] == cands[..i];
    assert (placed + [c])[..|placed|] == placed;
  }

  /** Counts the mines among the positions `ns`. */
  function CountMines(cells: map<Pos, Cell>, ns: seq<Pos>): (n: nat)
    ensures n <= |ns|
    ensures n == 0 <==> forall q :: q in ns && q in cells ==> !cells[q].isMine
  {
    if ns == [] then 0
    else (if ns[0] in cells && cells[ns[0]].isMine then 1 else 0) + CountMines(cells, ns[1..])
  }

  /** Every cell that is not a mine counts the mines among its in-bounds
      3x3 neighbours. Mine cells' counts are not promised. */
  ghost predicate CountsCorrect(width: int, height: int, cells: map<Pos, Cell>)
  {
    forall p {:trigger p in cells} :: p in cells && !cells[p].isMine ==>
      cells[p].nearbyMineCount == CountMines(cells, Neighbors(width, height, p.x, p.y))
  }

  /** One iteration of PlantMines' loop that places a mine at m: m becomes a
      mine, and every in-bounds neighbour of m that is not a mine counts one
      more (m itself is a mine by then, so its own count is skipped). */
  function PlantOne(cells: map<Pos, Cell>, m: Pos): (r: map<Pos, Cell>)
    ensures r.Keys == cells.Keys
  {
    map p | p in cells ::
      if p == m then cells[p].(isMine := true)
      else if Adjacent(p, m) && !cells[p].isMine then
        cells[p].(nearbyMineCount := cells[p].nearbyMineCount + 1)
      else cells[p]
  }

  /** Places the mines ms in order. */
  function PlantAll(cells: map<Pos, Cell>, ms: seq<Pos>): (r: map<Pos, Cell>)
    ensures r.Keys == cells.Keys
    ensures forall p :: p in cells ==> (r[p].isMine <==> cells[p].isMine || p in ms)
    ensures forall p :: p in cells ==>
      r[p].isRevealed == cells[p].isRevealed && r[p].isFlagged == cells[p].isFlagged
    decreases |ms|
  {
    if ms == [] then cells
    else PlantOne(PlantAll(cells, ms[..|ms| - 1]), ms[|ms| - 1])
  }

  /** The board partway through planting a mine at m, once the inner loop
      has visited the neighbours `done`: m is a mine, and each visited cell
      that is not a mine counts one more. */
  function Planting(cells: map<Pos, Cell>, m: Pos, done: set<Pos>): (r: map<Pos, Cell>)
    ensures r.Keys == cells.Keys
  {
    map q | q in cells ::
      if q == m then cells[q].(isMine := true)
      else if q in done && !cells[q].isMine then cells[q].(nearbyMineCount := cells[q].nearbyMineCount + 1)
      else cells[q]
  }

  /** Before the inner loop only the mine itself has changed. */
  lemma PlantingStart(cells: map<Pos, Cell>, m: Pos, ns: seq<Pos>)
    requires m in cells
    ensures Planting(cells, m, Elements(ns[..0])) == cells[m := cells[m].(isMine := true)]
  {
    assert Elements(ns[..0]) == {};
  }

  /** One turn of the inner loop at the neighbour ns[k], not visited before
      since the neighbours are distinct: it counts one more unless it is a
      mine (m itself is one by then). */
  lemma PlantingStep(cells: map<Pos, Cell>, m: Pos, ns: seq<Pos>, k: nat, prev: map<Pos, Cell>, cell: Cell)
    requires m in cells && k < |ns| && ns[k] in cells && Distinct(ns)
    requires prev == Planting(cells, m, Elements(ns[..k])) && cell == prev[ns[k]]
    ensures cell.isMine ==> Planting(cells, m, Elements(ns[..k + 1])) == prev
    ensures !cell.isMine ==>
      Planting(cells, m, Elements(ns[..k + 1])) == prev[ns[k] := cell.(nearbyMineCount := cell.nearbyMineCount + 1)]
  {
    assert ns[..k + 1] == ns[..k] + [ns[k]];
    assert Elements(ns[..k + 1]) == Elements(ns[..k]) + {ns[k]};
    assert ns[k] !in Elements(ns[..k]);
  }

  /** Once the inner loop has visited every neighbour of m, the board is
      the one PlantOne describes. */
  lemma PlantingComplete(width: int, height: int, cells: map<Pos, Cell>, m: Pos)
    requires CoversGrid(width, height, cells.Keys)
    ensures Planting(cells, m, Elements(Neighbors(width, height, m.x, m.y))) == PlantOne(cells, m)
  {
    var done := Elements(Neighbors(width, height, m.x, m.y));
    forall q | q in cells ensures Planting(cells, m, done)[q] == PlantOne(cells, m)[q] {
      assert m == Pos(m.x, m.y);
      assert q in done <==> Adjacent(q, m);
    }
  }

  /** Turning one non-mine position m into a mine adds one to the count of
      every list of distinct positions that contains m and nothing to the
      others. */
  lemma {:induction false} CountMinesUpdate(cells: map<Pos, Cell>, cells': map<Pos, Cell>, m: Pos, ns: seq<Pos>)
    requires cells'.Keys == cells.Keys && m in cells
    requires !cells[m].isMine && cells'[m].isMine
    requires forall q :: q in cells && q != m ==> cells'[q].isMine == cells[q].isMine
    requires Distinct(ns)
    ensures CountMines(cells', ns) == CountMines(cells, ns) + (if m in ns then 1 else 0)
  {
    if ns != [] {
      CountMinesUpdate(cells, cells', m, ns[1..]);
      assert m in ns <==> m == ns[0] || m in ns[1..];
    }
  }

  /** Planting a mine at a non-mine position keeps every non-mine count exact. */
  lemma PlantOneKeepsCounts(width: int, height: int, cells: map<Pos, Cell>, m: Pos)
    requires width >= 0 && height >= 0 && CoversGrid(width, height, cells.Keys)
    requires m in cells && !cells[m].isMine
    requires CountsCorrect(width, height, cells)
    ensures CountsCorrect(width, height, PlantOne(cells, m))
  {
    var r := PlantOne(cells, m);
    forall p | p in r && !r[p].isMine
      ensures r[p].nearbyMineCount == CountMines(r, Neighbors(width, height, p.x, p.y))
    {
      PlantOneKeepsCountAt(width, height, cells, m, p);
    }
  }

  lemma PlantOneKeepsCountAt(width: nat, height: nat, cells: map<Pos, Cell>, m: Pos, p: Pos)
    requires m in cells && !cells[m].isMine
    requires p in cells && p != m && !cells[p].isMine
    requires cells[p].nearbyMineCount == CountMines(cells, Neighbors(width, height, p.x, p.y))
    requires CoversGrid(width, height, cells.Keys)
    ensures var r := PlantOne(cells, m);
      r[p].nearbyMineCount == CountMines(r, Neighbors(width, height, p.x, p.y))
  {
    var r := PlantOne(cells, m);
    var ns := Neighbors(width, height, p.x, p.y);
    assert forall q :: q in cells && q != m ==> r[q].isMine == cells[q].isMine;
    NeighborsDistinct(width, height, p.x, p.y);
    CountMinesUpdate(cells, r, m, ns);
    assert p == Pos(p.x, p.y);
    assert m in ns <==> Adjacent(p, m);
  }

  /** PlantMines keeps every non-mine count exact: on a board whose counts
      are exact, planting distinct new mines leaves them exact. */
  lemma {:induction false} PlantAllKeepsCounts(width: int, height: int, cells: map<Pos, Cell>, ms: seq<Pos>)
    requires width >= 0 && height >= 0 && CoversGrid(width, height, cells.Keys)
    requires Distinct(ms)
    requires forall m :: m in ms ==> m in cells && !cells[m].isMine
    requires CountsCorrect(width, height, cells)
    ensures CountsCorrect(width, height, PlantAll(cells, ms))
    decreases |ms|
  {
    if ms != [] {
      var init, m := ms[..|ms| - 1], ms[|ms| - 1];
      assert forall q :: q in init ==> q in ms;
      PlantAllKeepsCounts(width, height, cells, init);
      var before := PlantAll(cells, init);
      assert m !in init;
      PlantOneKeepsCounts(width, height, before, m);
    }
  }

  /** On a board without mines every count of zero is exact. */
  lemma NoMinesCountsCorrect(width: int, height: int, cells: map<Pos, Cell>)
    requires forall p :: p in cells ==> !cells[p].isMine && cells[p].nearbyMineCount == 0
    ensures CountsCorrect(width, height, cells)
  {
  }

  /** The set of mine positions. */
  function MineSet(cells: map<Pos, Cell>): set<Pos>
  {
    set p | p in cells && cells[p].isMine
  }
}
