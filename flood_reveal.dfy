/** The flood reveal (RevealNearbyEmptyCells) on the value level: the cells
    it opens are exactly those reachable from the seed along chains of
    neighbours in which every cell but the last counts zero mines. */
module FloodReveal {
  import opened Geometry
  import opened MinesweeperCell
  import opened MinePlacement

  /** The positions whose cell counts zero nearby mines. */
  function ZeroCells(cells: map<Pos, Cell>): set<Pos>
  {
    set p | p in cells && cells[p].nearbyMineCount == 0
  }

  /** A chain the flood can follow: it starts on the grid, each position is
      a neighbour of the one before, and every position but the last counts
      zero (the flood propagates only from zero-count cells). */
  ghost predicate ZeroPath(width: int, height: int, zero: set<Pos>, path: seq<Pos>)
  {
    && |path| >= 1
    && InGrid(width, height, path[0])
    && forall i :: 0 <= i < |path| - 1 ==>
         path[i] in zero && path[i + 1] in Neighbors(width, height, path[i].x, path[i].y)
  }

  ghost predicate Reachable(width: int, height: int, zero: set<Pos>, seed: Pos, p: Pos)
  {
    exists path :: ZeroPath(width, height, zero, path) && path[0] == seed && path[|path| - 1] == p
  }

  /** Every position of part is reachable from seed. */
  ghost predicate ReachedFrom(width: int, height: int, zero: set<Pos>, seed: Pos, part: set<Pos>)
  {
    forall p :: p in part ==> Reachable(width, height, zero, seed, p)
  }

  /** The cells a flood started at seed opens. */
  ghost function Reach(width: nat, height: nat, zero: set<Pos>, seed: Pos): set<Pos>
  {
    set p | p in AllCells(width, height) && Reachable(width, height, zero, seed, p)
  }

  /** A set that holds every neighbour of each of its zero-count members. */
  ghost predicate Closed(width: int, height: int, zero: set<Pos>, s: set<Pos>)
  {
    forall p, n {:trigger n in Neighbors(width, height, p.x, p.y), p in s} ::
      p in s && p in zero && n in Neighbors(width, height, p.x, p.y) ==> n in s
  }

  /** Every zero-count member of `part` has all its neighbours in `whole`. */
  ghost predicate ClosedWithin(width: int, height: int, zero: set<Pos>, part: set<Pos>, whole: set<Pos>)
  {
    forall p, n {:trigger n in Neighbors(width, height, p.x, p.y), p in part} ::
      p in part && p in zero && n in Neighbors(width, height, p.x, p.y) ==> n in whole
  }

  lemma ReachSeed(width: int, height: int, zero: set<Pos>, seed: Pos)
    requires InGrid(width, height, seed)
    ensures Reachable(width, height, zero, seed, seed)
  {
    assert ZeroPath(width, height, zero, [seed]);
  }

  /** A flood that reaches p from a neighbour n of a zero-count cell c also
      reaches p from c. */
  lemma ReachStep(width: int, height: int, zero: set<Pos>, c: Pos, n: Pos, p: Pos)
    requires InGrid(width, height, c) && c in zero
    requires n in Neighbors(width, height, c.x, c.y)
    requires Reachable(width, height, zero, n, p)
    ensures Reachable(width, height, zero, c, p)
  {
    var path :| ZeroPath(width, height, zero, path) && path[0] == n && path[|path| - 1] == p;
    var longer := [c] + path;
    assert forall i :: 1 <= i < |longer| ==> longer[i] == path[i - 1];
    assert ZeroPath(width, height, zero, longer);
  }

  lemma {:induction false} PathWithin(width: int, height: int, zero: set<Pos>, path: seq<Pos>, s: set<Pos>, k: nat)
    requires ZeroPath(width, height, zero, path) && path[0] in s && Closed(width, height, zero, s)
    requires k < |path|
    ensures path[k] in s
  {
    if k > 0 {
      PathWithin(width, height, zero, path, s, k - 1);
    }
  }

  /** Every closed set that holds the seed holds everything the flood
      reaches from it. */
  lemma ReachWithin(width: nat, height: nat, zero: set<Pos>, seed: Pos, s: set<Pos>)
    requires seed in s && Closed(width, height, zero, s)
    ensures Reach(width, height, zero, seed) <= s
  {
    forall p | p in Reach(width, height, zero, seed) ensures p in s {
      var path :| ZeroPath(width, height, zero, path) && path[0] == seed && path[|path| - 1] == p;
      PathWithin(width, height, zero, path, s, |path| - 1);
    }
  }

  /** So a closed set of reachable positions that holds the seed is the
      flood's whole reach. */
  lemma ReachExactly(width: nat, height: nat, zero: set<Pos>, seed: Pos, s: set<Pos>)
    requires seed in s && Closed(width, height, zero, s)
    requires s <= AllCells(width, height)
    requires ReachedFrom(width, height, zero, seed, s)
    ensures s == Reach(width, height, zero, seed)
  {
    ReachWithin(width, height, zero, seed, s);
  }

  /** A zero-count non-mine cell with exact counts has no mine among its neighbours. */
  lemma NoMineNextToZero(width: nat, height: nat, cells: map<Pos, Cell>, q: Pos, n: Pos)
    requires CountsCorrect(width, height, cells)
    requires q in cells && !cells[q].isMine && cells[q].nearbyMineCount == 0
    requires n in cells && n in Neighbors(width, height, q.x, q.y)
    ensures !cells[n].isMine
  {
    assert CountMines(cells, Neighbors(width, height, q.x, q.y)) == 0;
  }

  /** No zero-count non-mine cell has a mine among its neighbours. */
  ghost predicate ZeroCellsSafe(width: int, height: int, cells: map<Pos, Cell>)
  {
    forall q, n {:trigger n in Neighbors(width, height, q.x, q.y), q in cells} ::
      q in cells && !cells[q].isMine && cells[q].nearbyMineCount == 0 &&
      n in cells && n in Neighbors(width, height, q.x, q.y)
      ==> !cells[n].isMine
  }

  lemma CountsMakeZeroCellsSafe(width: nat, height: nat, cells: map<Pos, Cell>)
    requires CountsCorrect(width, height, cells)
    ensures ZeroCellsSafe(width, height, cells)
  {
    forall q, n | q in cells && !cells[q].isMine && cells[q].nearbyMineCount == 0 &&
      n in cells && n in Neighbors(width, height, q.x, q.y)
      ensures !cells[n].isMine
    {
      NoMineNextToZero(width, height, cells, q, n);
    }
  }

  lemma {:induction false} PathAvoidsMines(width: nat, height: nat, cells: map<Pos, Cell>, path: seq<Pos>, k: nat)
    requires CoversGrid(width, height, cells.Keys)
    requires ZeroCellsSafe(width, height, cells)
    requires ZeroPath(width, height, ZeroCells(cells), path) && !cells[path[0]].isMine
    requires k < |path|
    ensures path[k] in cells && !cells[path[k]].isMine
  {
    if k > 0 {
      PathAvoidsMines(width, height, cells, path, k - 1);
      var q := path[k - 1];
      assert q in ZeroCells(cells);
      assert path[k] in Neighbors(width, height, q.x, q.y);
    }
  }

  /** With exact counts, a flood started at a non-mine cell never reaches a
      mine: a zero-count non-mine cell has no mine among its neighbours. */
  lemma ReachAvoidsMines(width: nat, height: nat, cells: map<Pos, Cell>, seed: Pos)
    requires CoversGrid(width, height, cells.Keys)
    requires CountsCorrect(width, height, cells)
    requires seed in cells && !cells[seed].isMine
    ensures forall p :: p in Reach(width, height, ZeroCells(cells), seed) ==> !cells[p].isMine
  {
    CountsMakeZeroCellsSafe(width, height, cells);
    SafeReachAvoidsMines(width, height, cells, seed);
  }

  lemma SafeReachAvoidsMines(width: nat, height: nat, cells: map<Pos, Cell>, seed: Pos)
    requires CoversGrid(width, height, cells.Keys)
    requires ZeroCellsSafe(width, height, cells)
    requires seed in cells && !cells[seed].isMine
    ensures forall p :: p in Reach(width, height, ZeroCells(cells), seed) ==> !cells[p].isMine
  {
    forall p | p in Reach(width, height, ZeroCells(cells), seed) ensures !cells[p].isMine {
      ReachableAvoidsMines(width, height, cells, seed, p);
    }
  }

  lemma ReachableAvoidsMines(width: nat, height: nat, cells: map<Pos, Cell>, seed: Pos, p: Pos)
    requires CoversGrid(width, height, cells.Keys)
    requires ZeroCellsSafe(width, height, cells)
    requires seed in cells && !cells[seed].isMine
    requires Reachable(width, height, ZeroCells(cells), seed, p)
    ensures p in cells && !cells[p].isMine
  {
    var path :| ZeroPath(width, height, ZeroCells(cells), path) && path[0] == seed && path[|path| - 1] == p;
    PathAvoidsMines(width, height, cells, path, |path| - 1);
  }

  /** The flood's effect on the board: every position of s is revealed and
      unflagged; the other cells are untouched. */
  function OpenSet(cells: map<Pos, Cell>, s: set<Pos>): (r: map<Pos, Cell>)
    ensures r.Keys == cells.Keys
    ensures ZeroCells(r) == ZeroCells(cells)
  {
    map p | p in cells :: if p in s then Opened(cells[p]) else cells[p]
  }

  lemma OpenSetTwice(cells: map<Pos, Cell>, a: set<Pos>, b: set<Pos>)
    ensures OpenSet(OpenSet(cells, a), b) == OpenSet(cells, a + b)
  {
  }

  /** Opening one position is revealing and unflagging that cell. */
  lemma OpenSetOne(cells: map<Pos, Cell>, c: Pos)
    requires c in cells
    ensures OpenSet(cells, {c}) == cells[c := Opened(cells[c])]
  {
  }

  /** A recursive call that opens more - before after a flood that opened
      before - base has opened more - base. */
  lemma DiffCompose(base: set<Pos>, before: set<Pos>, more: set<Pos>)
    requires base <= before <= more
    ensures (before - base) + (more - before) == more - base
    ensures (before - base) !! (more - before)
  {
  }

  lemma OpenSetCompose(cells: map<Pos, Cell>, base: set<Pos>, before: set<Pos>, more: set<Pos>)
    requires base <= before <= more
    ensures OpenSet(OpenSet(cells, before - base), more - before) == OpenSet(cells, more - base)
  {
    OpenSetTwice(cells, before - base, more - before);
    DiffCompose(base, before, more);
  }

  /** Each call of the flood marks one more position checked, so fewer
      positions of the grid remain unchecked for the calls it makes. */
  lemma UncheckedShrinks(all: set<Pos>, base: set<Pos>, bigger: set<Pos>, c: Pos)
    requires base <= bigger && c in bigger && c !in base && c in all
    ensures |all - bigger| < |all - base|
  {
    SubsetCard(all - bigger, (all - base) - {c});
  }

  /** What the flood started at c knows once it has run on some of c's
      neighbours: it has checked c and only grid positions, and every
      zero-count position it checked, other than c, has all its neighbours
      checked. */
  ghost predicate FloodSoFar(width: nat, height: nat, zero: set<Pos>, c: Pos, base: set<Pos>, checked: set<Pos>)
  {
    && base + {c} <= checked <= AllCells(width, height)
    && ClosedWithin(width, height, zero, checked - base - {c}, checked)
  }

  /** The flood marks c checked. */
  lemma FloodStart(width: nat, height: nat, zero: set<Pos>, c: Pos, base: set<Pos>)
    requires InGrid(width, height, c) && base <= AllCells(width, height) && c !in base
    ensures FloodSoFar(width, height, zero, c, base, base + {c})
    ensures (base + {c}) - base == {c}
  {
  }

  /** One turn of the loop over c's neighbours: the recursive call at a
      neighbour closes the zero-count positions it adds. */
  lemma FloodStep(width: nat, height: nat, zero: set<Pos>, c: Pos, base: set<Pos>, before: set<Pos>, more: set<Pos>)
    requires FloodSoFar(width, height, zero, c, base, before)
    requires before <= more <= AllCells(width, height)
    requires ClosedWithin(width, height, zero, more - before, more)
    ensures FloodSoFar(width, height, zero, c, base, more)
  {
    forall p, n | p in more - base - {c} && p in zero && n in Neighbors(width, height, p.x, p.y)
      ensures n in more
    {
      if p in before {
        assert p in before - base - {c};
      } else {
        assert p in more - before;
      }
    }
  }

  /** What the recursive call at the neighbour n of a zero-count c reaches
      is reachable from c. */
  lemma FloodStepReach(width: nat, height: nat, zero: set<Pos>, c: Pos, base: set<Pos>,
                       before: set<Pos>, n: Pos, more: set<Pos>)
    requires InGrid(width, height, c) && c in zero && n in Neighbors(width, height, c.x, c.y)
    requires before <= more
    requires ReachedFrom(width, height, zero, c, before - base)
    requires ReachedFrom(width, height, zero, n, more - before)
    ensures ReachedFrom(width, height, zero, c, more - base)
  {
    forall p | p in more - base ensures Reachable(width, height, zero, c, p) {
      if p !in before {
        ReachStep(width, height, zero, c, n, p);
      }
    }
  }

  /** After the loop every neighbour of c is checked, so the whole of what
      this call checked is closed. */
  lemma FloodEnd(width: nat, height: nat, zero: set<Pos>, c: Pos, base: set<Pos>, checked: set<Pos>)
    requires FloodSoFar(width, height, zero, c, base, checked)
    requires forall n :: n in Neighbors(width, height, c.x, c.y) ==> n in checked
    ensures ClosedWithin(width, height, zero, checked - base, checked)
  {
    forall p, n | p in checked - base && p in zero && n in Neighbors(width, height, p.x, p.y)
      ensures n in checked
    {
      if p != c {
        assert p in checked - base - {c};
      }
    }
  }

  /** A flood that stops at a numbered cell c has closed what it checked. */
  lemma FloodStopsAtNumber(width: nat, height: nat, zero: set<Pos>, c: Pos, base: set<Pos>)
    requires c !in zero && c !in base
    ensures ClosedWithin(width, height, zero, (base + {c}) - base, base + {c})
  {
    assert (base + {c}) - base == {c};
  }
}
