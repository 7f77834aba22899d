/** Grid geometry of the Minesweeper board: positions, the bounds test and
    the 3x3 neighbourhood that the board engine iterates over. */
module Geometry {

  /** A grid position: `x` is the column in [0, width), `y` the row in [0, height).
      The engine stores cells at `grid[y, x]`. */
  datatype Pos = Pos(x: int, y: int)

  /** The engine's bounds test: true when (x, y) lies outside the grid. */
  predicate IsUnavailableGridPos(width: int, height: int, x: int, y: int)
  {
    x < 0 || x >= width || y < 0 || y >= height
  }

  predicate InGrid(width: int, height: int, p: Pos)
  {
    !IsUnavailableGridPos(width, height, p.x, p.y)
  }

  /** p and q lie in one 3x3 block; every position is adjacent to itself. */
  predicate Adjacent(p: Pos, q: Pos)
  {
    -1 <= p.x - q.x <= 1 && -1 <= p.y - q.y <= 1
  }

  predicate Distinct(s: seq<Pos>)
  {
    forall i, j :: 0 <= i < j < |s| ==> s[i] != s[j]
  }

  /** The positions of row y. */
  function Row(width: nat, y: int): (r: set<Pos>)
    ensures forall p {:trigger p in r} :: p in r <==> 0 <= p.x < width && p.y == y
    ensures |r| == width
  {
    if width == 0 then {}
    else
      var r := Row(width - 1, y) + {Pos(width - 1, y)};
      assert forall p :: p in r <==> 0 <= p.x < width && p.y == y by {
        forall p: Pos | 0 <= p.x < width && p.y == y ensures p in r {
          if p.x < width - 1 { assert p in Row(width - 1, y); } else { assert p == Pos(width - 1, y); }
        }
      }
      r
  }

  /** Every position of a width x height grid. */
  function AllCells(width: nat, height: nat): (r: set<Pos>)
    ensures forall p {:trigger p in r} :: p in r <==> InGrid(width, height, p)
    ensures |r| == width * height
  {
    if height == 0 then {}
    else
      var above, last := AllCells(width, height - 1), Row(width, height - 1);
      assert above !! last by {
        forall p | p in last ensures p !in above { }
      }
      assert |above + last| == width * (height - 1) + width;
      MulStep(width, height);
      above + last
  }

  /** The positions of a board map are exactly the grid's. */
  ghost predicate CoversGrid(width: int, height: int, keys: set<Pos>)
  {
    forall p {:trigger p in keys} :: p in keys <==> InGrid(width, height, p)
  }

  lemma MulStep(a: nat, b: nat)
    requires b > 0
    ensures a * b == a * (b - 1) + a
  {
  }

  /** The 3x3 block around (cx, cy) in the order GetNeighbors visits it:
      x is the outer loop, y the inner one, and the centre is included. */
  function Block(cx: int, cy: int): (r: seq<Pos>)
    ensures forall p {:trigger p in r} :: p in r <==> Adjacent(p, Pos(cx, cy))
    ensures Distinct(r) && |r| == 9
  {
    var r := [Pos(cx - 1, cy - 1), Pos(cx - 1, cy), Pos(cx - 1, cy + 1),
              Pos(cx, cy - 1), Pos(cx, cy), Pos(cx, cy + 1),
              Pos(cx + 1, cy - 1), Pos(cx + 1, cy), Pos(cx + 1, cy + 1)];
    assert forall p :: Adjacent(p, Pos(cx, cy)) ==> p in r by {
      forall p: Pos | Adjacent(p, Pos(cx, cy)) ensures p in r {
        assert p == Pos(p.x, p.y);
        assert p.x == cx - 1 || p.x == cx || p.x == cx + 1;
        assert p.y == cy - 1 || p.y == cy || p.y == cy + 1;
      }
    }
    r
  }

  /** The elements of s that lie on the grid, in order. */
  function InGridOnly(width: int, height: int, s: seq<Pos>): (r: seq<Pos>)
    ensures forall p {:trigger p in r} :: p in r <==> p in s && InGrid(width, height, p)
    ensures |r| <= |s|
    ensures Distinct(s) ==> Distinct(r)
  {
    if s == [] then []
    else
      var rest := InGridOnly(width, height, s[1..]);
      assert forall p :: p in s <==> p == s[0] || p in s[1..];
      if InGrid(width, height, s[0]) then
        assert Distinct(s) ==> Distinct([s[0]] + rest) by {
          if Distinct(s) {
            assert s[0] !in s[1..];
            assert s[0] !in rest;
            forall i, j | 0 < j < |[s[0]] + rest| && i < j && i == 0
              ensures ([s[0]] + rest)[i] != ([s[0]] + rest)[j]
            {
              assert ([s[0]] + rest)[j] == rest[j - 1] && rest[j - 1] in rest;
            }
          }
        }
        [s[0]] + rest
      else rest
  }

  /** GetNeighbors: the in-bounds positions of the 3x3 block around
      (cx, cy), the centre included. */
  function Neighbors(width: int, height: int, cx: int, cy: int): (r: seq<Pos>)
    ensures forall p {:trigger p in r} :: p in r <==> InGrid(width, height, p) && Adjacent(p, Pos(cx, cy))
    ensures |r| <= 9
  {
    InGridOnly(width, height, Block(cx, cy))
  }

  /** GetNeighbors yields each position once. */
  lemma NeighborsDistinct(width: int, height: int, cx: int, cy: int)
    ensures Distinct(Neighbors(width, height, cx, cy))
  {
  }

}
