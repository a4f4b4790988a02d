/**
  The grid model: cell bitfields, directions, coordinates, the 2-D table of
  cells indexed `cells[y][x]`, and the tallies over that table that the
  generator's invariants are stated with.
*/
module Cells {

  /** The four directions `get_neighbours` can report. */
  datatype Dir = North | South | East | West

  /** A grid coordinate: `x` is the column, `y` the row, as in the `(x, y)` tuples of the stack. */
  datatype Pos = Pos(x: int, y: int)

  /**
    The five flags of a cell. They are distinct single bits, so setting one
    never disturbs another. A set `*Wall` bit means that the opening toward
    that side has been carved.
  */
  datatype Bit = CellVisited | NorthWall | SouthWall | EastWall | WestWall

  /** A cell bitfield, one boolean per bit. */
  datatype Cell = Cell(visited: bool, north: bool, south: bool, east: bool, west: bool)

  /** The all-zero cell every grid position starts as. */
  const Empty := Cell(false, false, false, false, false)

  /** `c & b != 0` */
  function Has(c: Cell, b: Bit): bool
  {
    match b
    case CellVisited => c.visited
    case NorthWall => c.north
    case SouthWall => c.south
    case EastWall => c.east
    case WestWall => c.west
  }

  /** `c | b`: the bit `b` is set afterwards and every other bit keeps its value. */
  function SetBit(c: Cell, b: Bit): (r: Cell)
    ensures Has(r, b)
    ensures forall b' :: b' != b ==> Has(r, b') == Has(c, b')
  {
    match b
    case CellVisited => c.(visited := true)
    case NorthWall => c.(north := true)
    case SouthWall => c.(south := true)
    case EastWall => c.(east := true)
    case WestWall => c.(west := true)
  }

  /** The opening bit a cell carries toward direction `d`; it is never the visited bit. */
  function WallBit(d: Dir): (b: Bit)
    ensures b != CellVisited
  {
    match d
    case North => NorthWall
    case South => SouthWall
    case East => EastWall
    case West => WestWall
  }

  /** Is the opening toward `d` carved in `c`? */
  predicate Open(c: Cell, d: Dir)
  {
    Has(c, WallBit(d))
  }

  /** The direction that leads back: the other direction along the same axis. */
  function Opposite(d: Dir): (r: Dir)
    ensures r != d
    ensures (d == North || d == South) <==> (r == North || r == South)
  {
    match d
    case North => South
    case South => North
    case East => West
    case West => East
  }

  /** The neighbour of `p` in direction `d`; rows grow downward, so north is `y - 1`. */
  function Toward(p: Pos, d: Dir): (q: Pos)
    ensures q != p
    ensures (q.x == p.x && (q.y == p.y - 1 || q.y == p.y + 1)) || (q.y == p.y && (q.x == p.x - 1 || q.x == p.x + 1))
    ensures q.y < p.y <==> d == North
    ensures q.y > p.y <==> d == South
    ensures q.x > p.x <==> d == East
    ensures q.x < p.x <==> d == West
  {
    match d
    case North => Pos(p.x, p.y - 1)
    case South => Pos(p.x, p.y + 1)
    case East => Pos(p.x + 1, p.y)
    case West => Pos(p.x - 1, p.y)
  }

  /** Stepping in a direction and then in its opposite returns to the start. */
  lemma TowardBack(p: Pos, d: Dir)
    ensures Opposite(Opposite(d)) == d
    ensures Toward(Toward(p, d), Opposite(d)) == p
  {
  }

  /** The table of cells, indexed row-major as `cells[y][x]`. */
  type Grid = seq<seq<Cell>>

  /** `g` has `rows` rows of `cols` cells each. */
  predicate WellFormed(g: Grid, cols: int, rows: int)
  {
    |g| == rows && forall y :: 0 <= y < |g| ==> |g[y]| == cols
  }

  predicate InBounds(p: Pos, cols: int, rows: int)
  {
    0 <= p.x < cols && 0 <= p.y < rows
  }

  /** `p` indexes a cell of `g`. */
  predicate Holds(g: Grid, p: Pos)
  {
    0 <= p.y < |g| && 0 <= p.x < |g[p.y]|
  }

  /** `cells[y][x]` */
  function At(g: Grid, p: Pos): Cell
    requires Holds(g, p)
  {
    g[p.y][p.x]
  }

  /** `g` and `h` have rows of the same lengths. */
  predicate SameShape(g: Grid, h: Grid)
  {
    |g| == |h| && forall y :: 0 <= y < |g| ==> |g[y]| == |h[y]|
  }

  /** `cells[y][x] |= b`: the one cell gains the bit, every other cell is unchanged. */
  function Mark(g: Grid, p: Pos, b: Bit): (r: Grid)
    requires Holds(g, p)
    ensures SameShape(g, r)
    ensures At(r, p) == SetBit(At(g, p), b)
    ensures forall q :: Holds(g, q) && q != p ==> At(r, q) == At(g, q)
  {
    g[p.y := g[p.y][p.x := SetBit(g[p.y][p.x], b)]]
  }

  /** The all-zero grid of `__init__`. */
  function Blank(cols: nat, rows: nat): (g: Grid)
    ensures WellFormed(g, cols, rows)
    ensures forall p :: InBounds(p, cols, rows) ==> At(g, p) == Empty
  {
    seq(rows, _ => seq(cols, _ => Empty))
  }

  // ---------------------------------------------------------------------
  // Tallies over the grid

  /**
    What is counted per cell: `Visits` counts a cell with `CellVisited` set;
    `Passages` counts its south and east openings, so that every carved pair
    of mirrored openings is counted exactly once, at its upper or left cell.
  */
  datatype Tally = Visits | Passages

  function Score(c: Cell, t: Tally): nat
  {
    match t
    case Visits => if c.visited then 1 else 0
    case Passages => (if c.south then 1 else 0) + (if c.east then 1 else 0)
  }

  function RowSum(row: seq<Cell>, t: Tally): nat
  {
    if row == [] then 0 else RowSum(row[..|row| - 1], t) + Score(row[|row| - 1], t)
  }

  function GridSum(g: Grid, t: Tally): nat
  {
    if g == [] then 0 else GridSum(g[..|g| - 1], t) + RowSum(g[|g| - 1], t)
  }

  /** The number of cells with `CellVisited` set. */
  function VisitedCount(g: Grid): nat
  {
    GridSum(g, Visits)
  }

  /** The number of carved opening pairs, each counted once. */
  function PassageCount(g: Grid): nat
  {
    GridSum(g, Passages)
  }

  lemma {:induction false} RowSumUpdate(row: seq<Cell>, i: int, c: Cell, t: Tally)
    requires 0 <= i < |row|
    ensures RowSum(row[i := c], t) == RowSum(row, t) - Score(row[i], t) + Score(c, t)
    decreases |row|
  {
    var n := |row| - 1;
    if i == n {
      assert row[i := c][..n] == row[..n];
    } else {
      assert row[i := c][..n] == row[..n][i := c];
      RowSumUpdate(row[..n], i, c, t);
    }
  }

  lemma {:induction false} GridSumUpdate(g: Grid, y: int, row: seq<Cell>, t: Tally)
    requires 0 <= y < |g|
    ensures GridSum(g[y := row], t) == GridSum(g, t) - RowSum(g[y], t) + RowSum(row, t)
    decreases |g|
  {
    var n := |g| - 1;
    if y == n {
      assert g[y := row][..n] == g[..n];
    } else {
      assert g[y := row][..n] == g[..n][y := row];
      GridSumUpdate(g[..n], y, row, t);
    }
  }

  /** Setting one bit changes a tally only by the difference it makes to that one cell. */
  lemma MarkSum(g: Grid, p: Pos, b: Bit, t: Tally)
    requires Holds(g, p)
    ensures GridSum(Mark(g, p, b), t) == GridSum(g, t) - Score(At(g, p), t) + Score(SetBit(At(g, p), b), t)
  {
    RowSumUpdate(g[p.y], p.x, SetBit(At(g, p), b), t);
    GridSumUpdate(g, p.y, g[p.y][p.x := SetBit(At(g, p), b)], t);
  }

  lemma {:induction false} RowSumZero(row: seq<Cell>, t: Tally)
    requires forall i :: 0 <= i < |row| ==> row[i] == Empty
    ensures RowSum(row, t) == 0
  {
    if row != [] {
      RowSumZero(row[..|row| - 1], t);
    }
  }

  /** Every tally of the all-zero grid is zero. */
  lemma {:induction false} GridSumZero(g: Grid, t: Tally)
    requires forall y, x :: 0 <= y < |g| && 0 <= x < |g[y]| ==> g[y][x] == Empty
    ensures GridSum(g, t) == 0
  {
    if g != [] {
      var n := |g| - 1;
      RowSumZero(g[n], t);
      assert forall y, x :: 0 <= y < n && 0 <= x < |g[..n][y]| ==> g[..n][y][x] == g[y][x];
      GridSumZero(g[..n], t);
    }
  }

  /** A row holds at most as many visited cells as it has cells, and exactly that many iff all are visited. */
  lemma {:induction false} RowVisits(row: seq<Cell>)
    ensures RowSum(row, Visits) <= |row|
    ensures RowSum(row, Visits) == |row| <==> forall i :: 0 <= i < |row| ==> row[i].visited
  {
    if row != [] {
      var n := |row| - 1;
      RowVisits(row[..n]);
      assert forall i :: 0 <= i < n ==> row[..n][i] == row[i];
    }
  }

  /**
    A well-formed grid holds at most `cols * rows` visited cells, and exactly
    that many iff every cell is visited.
  */
  lemma {:induction false} GridVisits(g: Grid, cols: nat, rows: nat)
    requires WellFormed(g, cols, rows)
    ensures VisitedCount(g) <= cols * rows
    ensures VisitedCount(g) == cols * rows <==> forall p :: InBounds(p, cols, rows) ==> At(g, p).visited
  {
    if rows > 0 {
      var n := rows - 1;
      var prefix := g[..n];
      assert WellFormed(prefix, cols, n);
      GridVisits(prefix, cols, n);
      RowVisits(g[n]);
      assert cols * rows == cols * n + cols;
      assert forall p :: InBounds(p, cols, n) ==> At(prefix, p) == At(g, p);
      if VisitedCount(g) == cols * rows {
        forall p | InBounds(p, cols, rows) ensures At(g, p).visited {
          if p.y == n {
            assert g[n][p.x].visited;
          } else {
            assert InBounds(p, cols, n);
          }
        }
      }
      if forall p :: InBounds(p, cols, rows) ==> At(g, p).visited {
        forall i | 0 <= i < cols ensures g[n][i].visited {
          assert InBounds(Pos(i, n), cols, rows);
        }
        forall p | InBounds(p, cols, n) ensures At(prefix, p).visited {
          assert InBounds(p, cols, rows);
        }
      }
    }
  }
}
