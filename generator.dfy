/**
  The maze generator: its state, one step of the randomized iterative
  depth-first backtracker of `Engine.update`, and the invariants every step
  keeps.
*/
module Generator {
  import opened Cells

  /** The generator state held by `Engine`: the grid size, `cells`, `stack` and `visited_cells`. */
  datatype Gen = Gen(cols: int, rows: int, cells: Grid, stack: seq<Pos>, visited: int)

  /** `TOTAL_CELLS`, taken to be `CELL_COLS * CELL_ROWS`. */
  function Total(s: Gen): int
  {
    s.cols * s.rows
  }

  /** The grid has at least one cell and `cells` has the declared size. */
  predicate Shaped(s: Gen)
  {
    s.cols >= 1 && s.rows >= 1 && WellFormed(s.cells, s.cols, s.rows)
  }

  predicate Inside(s: Gen, p: Pos)
  {
    InBounds(p, s.cols, s.rows)
  }

  /** `stack[-1]`, the current cell: the last entry, with the rest of the stack below it. */
  function Top(s: Gen): (p: Pos)
    requires |s.stack| > 0
    ensures p in s.stack && s.stack == s.stack[..|s.stack| - 1] + [p]
  {
    s.stack[|s.stack| - 1]
  }

  /** The state as `__init__` leaves it. */
  function Initial(cols: int, rows: int): (s: Gen)
    requires cols >= 1 && rows >= 1
    ensures Shaped(s) && s.cols == cols && s.rows == rows
    ensures forall p :: Inside(s, p) ==>
      At(s.cells, p) == if p == Pos(0, 0) then Empty.(visited := true) else Empty
    ensures s.stack == [Pos(0, 0)] && s.visited == 1
  {
    Gen(cols, rows, Mark(Blank(cols, rows), Pos(0, 0), CellVisited), [Pos(0, 0)], 1)
  }

  // ---------------------------------------------------------------------
  // get_neighbours

  /** The position of a direction in the order `get_neighbours` tests them. */
  function Rank(d: Dir): nat
  {
    match d
    case West => 0
    case East => 1
    case North => 2
    case South => 3
  }

  /**
    `get_neighbours(x, y)`: exactly the directions whose neighbour lies on the
    grid and is not yet visited, each once, in the order West, East, North,
    South. Each bounds test comes before the cell it guards is read.
  */
  function Neighbours(s: Gen, p: Pos): (r: seq<Dir>)
    requires Shaped(s) && Inside(s, p)
    ensures Ascending(r)
  {
    var x, y := p.x, p.y;
    var r1 := AppendIf(x > 0 && !At(s.cells, Pos(x - 1, y)).visited, [], West);
    var r2 := AppendIf(x < s.cols - 1 && !At(s.cells, Pos(x + 1, y)).visited, r1, East);
    var r3 := AppendIf(y > 0 && !At(s.cells, Pos(x, y - 1)).visited, r2, North);
    AppendIf(y < s.rows - 1 && !At(s.cells, Pos(x, y + 1)).visited, r3, South)
  }

  /** `get_neighbours` reports a direction iff its neighbour is on the grid and unvisited. */
  lemma NeighboursExact(s: Gen, p: Pos)
    requires Shaped(s) && Inside(s, p)
    ensures forall d :: d in Neighbours(s, p) <==> Inside(s, Toward(p, d)) && !At(s.cells, Toward(p, d)).visited
  {
    var x, y, r := p.x, p.y, Neighbours(s, p);
    forall d ensures d in r <==> Inside(s, Toward(p, d)) && !At(s.cells, Toward(p, d)).visited {
      match d
      case West =>
        assert Toward(p, d) == Pos(x - 1, y);
        assert West in r <==> x > 0 && !At(s.cells, Pos(x - 1, y)).visited;
      case East =>
        assert Toward(p, d) == Pos(x + 1, y);
        assert East in r <==> x < s.cols - 1 && !At(s.cells, Pos(x + 1, y)).visited;
      case North =>
        assert Toward(p, d) == Pos(x, y - 1);
        assert North in r <==> y > 0 && !At(s.cells, Pos(x, y - 1)).visited;
      case South =>
        assert Toward(p, d) == Pos(x, y + 1);
        assert South in r <==> y < s.rows - 1 && !At(s.cells, Pos(x, y + 1)).visited;
    }
  }

  /** The directions of `r` come in strictly increasing `Rank`, so none is repeated. */
  predicate Ascending(r: seq<Dir>)
  {
    forall i, j :: 0 <= i < j < |r| ==> Rank(r[i]) < Rank(r[j])
  }

  /**
    A conditional append to the list `get_neighbours` builds, where `d` comes
    later in the order than everything already in the list.
  */
  function AppendIf(c: bool, a: seq<Dir>, d: Dir): (r: seq<Dir>)
    requires Ascending(a) && forall i :: 0 <= i < |a| ==> Rank(a[i]) < Rank(d)
    ensures Ascending(r) && forall i :: 0 <= i < |r| ==> Rank(r[i]) <= Rank(d)
    ensures forall e :: e in r <==> e in a || (c && e == d)
  {
    if c then a + [d] else a
  }

  /** Every on-grid neighbour of `p` is visited: the dead end of `update`. */
  ghost predicate Exhausted(s: Gen, p: Pos)
    requires Shaped(s)
  {
    forall d :: Inside(s, Toward(p, d)) ==> At(s.cells, Toward(p, d)).visited
  }

  // ---------------------------------------------------------------------
  // One step of update

  /** The state `update` reads: a current cell on the grid. */
  predicate Ready(s: Gen)
  {
    Shaped(s) && |s.stack| > 0 && Inside(s, Top(s))
  }

  /** `k` is an index the random choice of `update` can return: one of the neighbours, when there are any. */
  predicate Admissible(s: Gen, k: int)
    requires Ready(s)
  {
    var ns := Neighbours(s, Top(s));
    ns == [] || 0 <= k < |ns|
  }

  /**
    Any index the random choice can return names a direction whose neighbour
    is on the grid and still unvisited, so the carve is always legal.
  */
  lemma ChosenNeighbour(s: Gen, k: int)
    requires Ready(s) && Admissible(s, k) && Neighbours(s, Top(s)) != []
    ensures 0 <= k < |Neighbours(s, Top(s))|
    ensures Inside(s, Toward(Top(s), Neighbours(s, Top(s))[k]))
    ensures !At(s.cells, Toward(Top(s), Neighbours(s, Top(s))[k])).visited
  {
    NeighboursExact(s, Top(s));
    assert Neighbours(s, Top(s))[k] in Neighbours(s, Top(s));
  }

  /**
    The carve branch of `update` with `next_dir == d`: the current cell gains
    the opening toward `d`, the neighbour gains the mirrored opening and the
    visited bit, the neighbour is pushed and the counter goes up by one. No
    other bit of either cell and no other cell changes.
  */
  function Carve(s: Gen, d: Dir): (r: Gen)
    requires Ready(s) && Inside(s, Toward(Top(s), d))
    ensures Shaped(r) && r.cols == s.cols && r.rows == s.rows
    ensures r.stack == s.stack + [Toward(Top(s), d)] && r.visited == s.visited + 1
    ensures Open(At(r.cells, Top(s)), d)
    ensures forall b :: b != WallBit(d) ==> Has(At(r.cells, Top(s)), b) == Has(At(s.cells, Top(s)), b)
    ensures Open(At(r.cells, Toward(Top(s), d)), Opposite(d)) && At(r.cells, Toward(Top(s), d)).visited
    ensures forall b :: b != WallBit(Opposite(d)) && b != CellVisited ==>
      Has(At(r.cells, Toward(Top(s), d)), b) == Has(At(s.cells, Toward(Top(s), d)), b)
    ensures forall q :: Inside(s, q) && q != Top(s) && q != Toward(Top(s), d) ==> At(r.cells, q) == At(s.cells, q)
  {
    var p := Top(s);
    var n := Toward(p, d);
    var carved := Mark(s.cells, p, WallBit(d));
    var mirrored := Mark(carved, n, WallBit(Opposite(d)));
    s.(cells := Mark(mirrored, n, CellVisited), stack := s.stack + [n], visited := s.visited + 1)
  }

  /** The backtrack branch of `update`: the top of the stack goes, nothing else changes. */
  function Backtrack(s: Gen): (r: Gen)
    requires |s.stack| > 0
    ensures r.stack + [Top(s)] == s.stack
    ensures r.cells == s.cells && r.visited == s.visited && r.cols == s.cols && r.rows == s.rows
  {
    s.(stack := s.stack[..|s.stack| - 1])
  }

  /**
    The body of `update` once its guard has passed: carve toward the `k`-th
    neighbour if there is one, otherwise backtrack. Either the counter and the
    stack grow by one, or the grid and the counter stay and the stack shrinks
    by one.
  */
  function Step(s: Gen, k: int): (r: Gen)
    requires Ready(s) && Admissible(s, k)
    ensures r.cols == s.cols && r.rows == s.rows
    ensures if Neighbours(s, Top(s)) != []
      then r.visited == s.visited + 1 && |r.stack| == |s.stack| + 1
      else r.visited == s.visited && r.cells == s.cells && |r.stack| == |s.stack| - 1
  {
    var ns := Neighbours(s, Top(s));
    if ns != [] then Carve(s, ns[k]) else Backtrack(s)
  }

  /** `update`: one step when not paused and not complete, otherwise nothing changes. */
  function Update(s: Gen, paused: bool, k: int): (r: Gen)
    requires !paused && s.visited < Total(s) ==> Ready(s) && Admissible(s, k)
    ensures paused || s.visited >= Total(s) ==> r == s
    ensures r.cols == s.cols && r.rows == s.rows
  {
    if !paused && s.visited < Total(s) then Step(s, k) else s
  }

  // ---------------------------------------------------------------------
  // The invariant

  /** Openings come in mirrored pairs between neighbours and none points off the grid. */
  ghost predicate Paired(s: Gen)
    requires Shaped(s)
  {
    forall p, d {:trigger Toward(p, d)} :: Inside(s, p) && Open(At(s.cells, p), d) ==>
      Inside(s, Toward(p, d)) && Open(At(s.cells, Toward(p, d)), Opposite(d))
  }

  /** Only visited cells have openings. */
  ghost predicate OpenVisited(s: Gen)
    requires Shaped(s)
  {
    forall p, d :: Inside(s, p) && Open(At(s.cells, p), d) ==> At(s.cells, p).visited
  }

  /** `q` is the neighbour of `p` through an opening carved in `p`. */
  ghost predicate Link(s: Gen, p: Pos, q: Pos)
    requires Shaped(s)
  {
    Inside(s, p) && exists d :: q == Toward(p, d) && Open(At(s.cells, p), d)
  }

  /** A walk through carved openings, starting at the start cell `(0, 0)`. */
  ghost predicate Trail(s: Gen, path: seq<Pos>)
    requires Shaped(s)
  {
    && |path| > 0
    && path[0] == Pos(0, 0)
    && (forall i :: 0 <= i < |path| ==> Inside(s, path[i]))
    && (forall i :: 0 <= i < |path| - 1 ==> Link(s, path[i], path[i + 1]))
  }

  /** The stack is a walk from the start cell through carved openings, over visited cells. */
  ghost predicate StackPath(s: Gen)
    requires Shaped(s)
  {
    Trail(s, s.stack) && forall i :: 0 <= i < |s.stack| ==> At(s.cells, s.stack[i]).visited
  }

  /** The depth-first invariant: a visited cell that has left the stack has no unvisited neighbour. */
  ghost predicate DeadEnds(s: Gen)
    requires Shaped(s)
  {
    forall p {:trigger Exhausted(s, p)} :: Inside(s, p) && At(s.cells, p).visited && p !in s.stack ==> Exhausted(s, p)
  }

  /** Some walk through carved openings leads from the start cell to `q`. */
  ghost predicate Reachable(s: Gen, q: Pos)
    requires Shaped(s)
  {
    exists path :: Trail(s, path) && path[|path| - 1] == q
  }

  /** Every visited cell is reachable from the start cell. */
  ghost predicate Connected(s: Gen)
    requires Shaped(s)
  {
    forall q {:trigger Reachable(s, q)} :: Inside(s, q) && At(s.cells, q).visited ==> Reachable(s, q)
  }

  /**
    What holds of every state `update` can reach. Paired and OpenVisited make
    the carved openings the edges of a graph on the visited cells; Connected
    and `PassageCount == visited - 1` make it connected with one edge fewer
    than it has cells, which is a tree.
  */
  ghost predicate Valid(s: Gen)
  {
    && Shaped(s)
    && At(s.cells, Pos(0, 0)).visited
    && Paired(s)
    && OpenVisited(s)
    && s.visited == VisitedCount(s.cells)
    && PassageCount(s.cells) + 1 == s.visited
    && StackPath(s)
    && |s.stack| <= s.visited
    && DeadEnds(s)
    && Connected(s)
  }

  // ---------------------------------------------------------------------
  // Lemmas

  lemma WallBitInjective(d: Dir, e: Dir)
    ensures WallBit(d) == WallBit(e) ==> d == e
  {
  }

  /** `__init__` establishes the invariant. */
  lemma InitialValid(cols: int, rows: int)
    requires cols >= 1 && rows >= 1
    ensures Valid(Initial(cols, rows))
  {
    var s := Initial(cols, rows);
    var blank := Blank(cols, rows);
    var o := Pos(0, 0);
    GridSumZero(blank, Visits);
    GridSumZero(blank, Passages);
    MarkSum(blank, o, CellVisited, Visits);
    MarkSum(blank, o, CellVisited, Passages);
    assert Trail(s, [o]);
    forall q | Inside(s, q) && At(s.cells, q).visited ensures Reachable(s, q) {
      assert q == o;
      assert Trail(s, [o]) && [o][0] == q;
    }
  }

  /** An opening is present on one side of a pair exactly when it is present on the other. */
  lemma PairedIff(s: Gen, p: Pos, d: Dir)
    requires Valid(s) && Inside(s, p)
    ensures Open(At(s.cells, p), d) ==> Inside(s, Toward(p, d))
    ensures Inside(s, Toward(p, d)) ==>
      (Open(At(s.cells, p), d) <==> Open(At(s.cells, Toward(p, d)), Opposite(d)))
  {
    TowardBack(p, d);
  }

  /** The stack never holds more entries than there are visited cells, nor these more than the grid has. */
  lemma Bounded(s: Gen)
    requires Valid(s)
    ensures 0 < |s.stack| <= s.visited <= Total(s)
  {
    GridVisits(s.cells, s.cols, s.rows);
  }

  /** Bits are only ever added. */
  ghost predicate Grows(s: Gen, r: Gen)
    requires Shaped(s) && Shaped(r)
  {
    && r.cols == s.cols && r.rows == s.rows
    && forall q, b :: Inside(s, q) && Has(At(s.cells, q), b) ==> Has(At(r.cells, q), b)
  }

  lemma TrailGrows(s: Gen, r: Gen, path: seq<Pos>)
    requires Shaped(s) && Shaped(r) && Grows(s, r) && Trail(s, path)
    ensures Trail(r, path)
  {
    forall i | 0 <= i < |path| - 1 ensures Link(r, path[i], path[i + 1]) {
      assert Link(s, path[i], path[i + 1]);
      var d :| path[i + 1] == Toward(path[i], d) && Open(At(s.cells, path[i]), d);
      assert Has(At(r.cells, path[i]), WallBit(d));
    }
  }

  /** Facts about a carve toward an unvisited neighbour that the invariant lemmas share. */
  lemma CarveFacts(s: Gen, d: Dir)
    requires Valid(s) && d in Neighbours(s, Top(s))
    ensures Inside(s, Toward(Top(s), d))
    ensures At(s.cells, Toward(Top(s), d)) == Empty
    ensures !Open(At(s.cells, Top(s)), d)
    ensures Grows(s, Carve(s, d))
  {
    var p, n := Top(s), Toward(Top(s), d);
    NeighboursExact(s, p);
    var c := At(s.cells, n);
    assert !c.visited;
    forall e ensures !Open(c, e) {
    }
    assert !Open(c, North) && !Open(c, South) && !Open(c, East) && !Open(c, West);
    var r := Carve(s, d);
    forall q, b | Inside(s, q) && Has(At(s.cells, q), b) ensures Has(At(r.cells, q), b) {
      if q == n {
        assert false;
      }
    }
  }

  /** An opening after a carve is one of the two new ones or was there before. */
  lemma CarveOpening(s: Gen, d: Dir, q: Pos, e: Dir)
    requires Valid(s) && d in Neighbours(s, Top(s))
    requires Inside(s, q) && Open(At(Carve(s, d).cells, q), e)
    ensures || (q == Top(s) && e == d)
            || (q == Toward(Top(s), d) && e == Opposite(d))
            || Open(At(s.cells, q), e)
  {
    CarveFacts(s, d);
    WallBitInjective(d, e);
    WallBitInjective(Opposite(d), e);
  }

  lemma CarvePairedAt(s: Gen, d: Dir, q: Pos, e: Dir)
    requires Valid(s) && d in Neighbours(s, Top(s))
    requires Inside(s, q) && Open(At(Carve(s, d).cells, q), e)
    ensures Inside(s, Toward(q, e)) && Open(At(Carve(s, d).cells, Toward(q, e)), Opposite(e))
  {
    CarveFacts(s, d);
    CarveOpening(s, d, q, e);
    var p, n := Top(s), Toward(Top(s), d);
    if q == p && e == d {
    } else if q == n && e == Opposite(d) {
      TowardBack(p, d);
    } else {
      OldOpeningKept(s, Carve(s, d), q, e);
    }
  }

  /** A pair of openings present before a growth step is still present after it. */
  lemma OldOpeningKept(s: Gen, r: Gen, q: Pos, e: Dir)
    requires Shaped(s) && Shaped(r) && Paired(s) && Grows(s, r)
    requires Inside(s, q) && Open(At(s.cells, q), e)
    ensures Inside(s, Toward(q, e)) && Open(At(r.cells, Toward(q, e)), Opposite(e))
  {
    var t := Toward(q, e);
    assert Inside(s, t) && Has(At(s.cells, t), WallBit(Opposite(e)));
  }

  lemma CarvePaired(s: Gen, d: Dir)
    requires Valid(s) && d in Neighbours(s, Top(s))
    ensures Paired(Carve(s, d))
  {
    CarveFacts(s, d);
    var r := Carve(s, d);
    forall q, e | Inside(r, q) && Open(At(r.cells, q), e)
      ensures Inside(r, Toward(q, e)) && Open(At(r.cells, Toward(q, e)), Opposite(e))
    {
      CarvePairedAt(s, d, q, e);
    }
  }

  lemma CarveOpenVisited(s: Gen, d: Dir)
    requires Valid(s) && d in Neighbours(s, Top(s))
    ensures OpenVisited(Carve(s, d))
  {
    CarveFacts(s, d);
    var p, n, r := Top(s), Toward(Top(s), d), Carve(s, d);
    forall q, e | Inside(r, q) && Open(At(r.cells, q), e) ensures At(r.cells, q).visited {
      CarveOpening(s, d, q, e);
      if q == p {
        assert Has(At(s.cells, p), CellVisited);
      } else if q != n {
        assert Has(At(s.cells, q), CellVisited);
      }
    }
  }

  lemma CarveCounts(s: Gen, d: Dir)
    requires Valid(s) && d in Neighbours(s, Top(s))
    ensures VisitedCount(Carve(s, d).cells) == VisitedCount(s.cells) + 1
    ensures PassageCount(Carve(s, d).cells) == PassageCount(s.cells) + 1
  {
    CarveFacts(s, d);
    var p, n := Top(s), Toward(Top(s), d);
    var carved := Mark(s.cells, p, WallBit(d));
    var mirrored := Mark(carved, n, WallBit(Opposite(d)));
    var done := Mark(mirrored, n, CellVisited);
    assert Carve(s, d).cells == done;
    assert At(carved, n) == Empty;
    var cp := At(s.cells, p);
    assert cp.visited;
    assert At(mirrored, n) == SetBit(Empty, WallBit(Opposite(d)));
    MarkSum(s.cells, p, WallBit(d), Visits);
    MarkSum(carved, n, WallBit(Opposite(d)), Visits);
    MarkSum(mirrored, n, CellVisited, Visits);
    MarkSum(s.cells, p, WallBit(d), Passages);
    MarkSum(carved, n, WallBit(Opposite(d)), Passages);
    MarkSum(mirrored, n, CellVisited, Passages);
    match d
    case North => assert !cp.north;
    case South => assert !cp.south;
    case East => assert !cp.east;
    case West => assert !cp.west;
  }

  lemma CarveStack(s: Gen, d: Dir)
    requires Valid(s) && d in Neighbours(s, Top(s))
    ensures StackPath(Carve(s, d))
    ensures Connected(Carve(s, d))
  {
    CarveFacts(s, d);
    var p, n, r := Top(s), Toward(Top(s), d), Carve(s, d);
    TrailGrows(s, r, s.stack);
    assert Link(r, p, n);
    var m := |s.stack|;
    forall i | 0 <= i < |r.stack| - 1 ensures Link(r, r.stack[i], r.stack[i + 1]) {
      if i < m - 1 {
        assert r.stack[i] == s.stack[i] && r.stack[i + 1] == s.stack[i + 1];
      } else {
        assert r.stack[i] == p && r.stack[i + 1] == n;
      }
    }
    assert Trail(r, r.stack);
    forall i | 0 <= i < |r.stack| ensures At(r.cells, r.stack[i]).visited {
      if i < m {
        assert r.stack[i] == s.stack[i];
        assert Has(At(s.cells, s.stack[i]), CellVisited);
      }
    }
    forall q | Inside(r, q) && At(r.cells, q).visited ensures Reachable(r, q) {
      if q == n {
        assert Trail(r, r.stack) && r.stack[|r.stack| - 1] == q;
      } else {
        assert Has(At(s.cells, q), CellVisited);
        assert Reachable(s, q);
        var path :| Trail(s, path) && path[|path| - 1] == q;
        TrailGrows(s, r, path);
      }
    }
  }

  lemma CarveDeadEnds(s: Gen, d: Dir)
    requires Valid(s) && d in Neighbours(s, Top(s))
    ensures DeadEnds(Carve(s, d))
  {
    CarveFacts(s, d);
    var p, n, r := Top(s), Toward(Top(s), d), Carve(s, d);
    forall q | Inside(r, q) && At(r.cells, q).visited && q !in r.stack ensures Exhausted(r, q) {
      assert q != n && q != p && q !in s.stack;
      assert Exhausted(s, q);
      forall e | Inside(r, Toward(q, e)) ensures At(r.cells, Toward(q, e)).visited {
        assert Has(At(s.cells, Toward(q, e)), CellVisited);
      }
    }
  }

  /** A carve toward an unvisited neighbour keeps the invariant. */
  lemma CarveValid(s: Gen, d: Dir)
    requires Valid(s) && d in Neighbours(s, Top(s))
    ensures Valid(Carve(s, d))
  {
    CarveFacts(s, d);
    CarvePaired(s, d);
    CarveOpenVisited(s, d);
    CarveCounts(s, d);
    CarveStack(s, d);
    CarveDeadEnds(s, d);
    assert Has(At(s.cells, Pos(0, 0)), CellVisited);
  }

  lemma {:induction false} VisitedAlong(s: Gen, x: int, y: int)
    requires Shaped(s) && At(s.cells, Pos(0, 0)).visited
    requires forall q :: Inside(s, q) && At(s.cells, q).visited ==> Exhausted(s, q)
    requires 0 <= x < s.cols && 0 <= y < s.rows
    ensures At(s.cells, Pos(x, y)).visited
    decreases x + y
  {
    if y > 0 {
      VisitedAlong(s, x, y - 1);
      assert Exhausted(s, Pos(x, y - 1));
      assert Toward(Pos(x, y - 1), South) == Pos(x, y);
    } else if x > 0 {
      VisitedAlong(s, x - 1, y);
      assert Exhausted(s, Pos(x - 1, y));
      assert Toward(Pos(x - 1, y), East) == Pos(x, y);
    }
  }

  /**
    The depth-first argument for `stack[-1]`: if the stack were empty, every
    visited cell would be a dead end, so the visited region, which holds the
    start cell, would be the whole grid and generation would be complete.
  */
  lemma EmptyStackMeansComplete(s: Gen)
    requires Shaped(s) && At(s.cells, Pos(0, 0)).visited
    requires s.visited == VisitedCount(s.cells) && DeadEnds(s)
    requires s.stack == []
    ensures s.visited == Total(s)
  {
    forall q | Inside(s, q) ensures At(s.cells, q).visited {
      VisitedAlong(s, q.x, q.y);
    }
    GridVisits(s.cells, s.cols, s.rows);
  }

  /** A backtrack from a dead end before completion keeps the invariant; in particular the stack stays non-empty. */
  lemma BacktrackValid(s: Gen)
    requires Valid(s) && Neighbours(s, Top(s)) == [] && s.visited < Total(s)
    ensures Valid(Backtrack(s))
  {
    var r := Backtrack(s);
    SameGrid(s, r);
    BacktrackDeadEnds(s);
    if r.stack == [] {
      EmptyStackMeansComplete(r);
      assert false;
    }
    assert forall i :: 0 <= i < |r.stack| ==> r.stack[i] == s.stack[i];
    assert Trail(r, r.stack);
  }

  /** The grid-only parts of the invariant depend on the grid alone, not on the stack. */
  lemma SameGrid(s: Gen, r: Gen)
    requires Shaped(s) && r.cols == s.cols && r.rows == s.rows && r.cells == s.cells
    ensures Shaped(r)
    ensures Paired(r) == Paired(s) && OpenVisited(r) == OpenVisited(s)
    ensures forall path :: Trail(r, path) == Trail(s, path)
    ensures Connected(r) == Connected(s)
  {
    forall path ensures Trail(r, path) == Trail(s, path) {
      assert forall p, q :: Link(r, p, q) == Link(s, p, q);
    }
    if Connected(s) {
      forall q | Inside(r, q) && At(r.cells, q).visited ensures Reachable(r, q) {
        assert Reachable(s, q);
        var path :| Trail(s, path) && path[|path| - 1] == q;
        assert Trail(r, path);
      }
    }
    if Connected(r) {
      forall q | Inside(s, q) && At(s.cells, q).visited ensures Reachable(s, q) {
        assert Reachable(r, q);
        var path :| Trail(r, path) && path[|path| - 1] == q;
        assert Trail(s, path);
      }
    }
  }

  /** The cell a backtrack removes from the stack is a dead end, so the depth-first invariant survives. */
  lemma BacktrackDeadEnds(s: Gen)
    requires Valid(s) && Neighbours(s, Top(s)) == []
    ensures DeadEnds(Backtrack(s))
  {
    var p, r := Top(s), Backtrack(s);
    NeighboursExact(s, p);
    forall q | Inside(r, q) && At(r.cells, q).visited && q !in r.stack ensures Exhausted(r, q) {
      if q == p {
        forall e | Inside(r, Toward(p, e)) ensures At(r.cells, Toward(p, e)).visited {
          assert e !in Neighbours(s, p);
        }
      } else {
        assert q !in s.stack;
        assert Exhausted(s, q);
      }
    }
  }

  /** Every step of `update` keeps the invariant. */
  lemma StepValid(s: Gen, k: int)
    requires Valid(s) && Admissible(s, k)
    requires s.visited < Total(s)
    ensures Valid(Step(s, k))
  {
    var ns := Neighbours(s, Top(s));
    if ns != [] {
      assert ns[k] in ns;
      CarveValid(s, ns[k]);
    } else {
      BacktrackValid(s);
    }
  }

  /** `update` keeps the invariant, whatever the flags. */
  lemma UpdateValid(s: Gen, paused: bool, k: int)
    requires Valid(s)
    requires !paused && s.visited < Total(s) ==> Admissible(s, k)
    ensures Valid(Update(s, paused, k))
  {
    if !paused && s.visited < Total(s) {
      StepValid(s, k);
    }
  }

  /**
    Once `visited_cells` reaches `TOTAL_CELLS`, every cell is visited and
    reachable from the start cell, and there are `TOTAL_CELLS - 1` carved
    opening pairs: the openings form a spanning tree of the grid.
  */
  lemma CompleteIsSpanningTree(s: Gen)
    requires Valid(s) && s.visited == Total(s)
    ensures forall q :: Inside(s, q) ==> At(s.cells, q).visited && Reachable(s, q)
    ensures PassageCount(s.cells) == Total(s) - 1
  {
    GridVisits(s.cells, s.cols, s.rows);
  }

  // ---------------------------------------------------------------------
  // Termination of generation

  /** Twice the counter less the stack depth: every step of `update` raises it by one. */
  function Progress(s: Gen): int
  {
    2 * s.visited - |s.stack|
  }

  /** A carve raises the counter and the stack by one, a backtrack lowers the stack by one. */
  lemma StepProgress(s: Gen, k: int)
    requires Ready(s) && Admissible(s, k)
    ensures Progress(Step(s, k)) == Progress(s) + 1
  {
  }

  /** In a valid state the measure is below `2 * TOTAL_CELLS`, and reaching `2 * TOTAL_CELLS - 1` means completion. */
  lemma ProgressBound(s: Gen)
    requires Valid(s)
    ensures Progress(s) <= 2 * Total(s) - 1
    ensures Progress(s) >= 2 * Total(s) - 1 ==> s.visited == Total(s)
  {
    Bounded(s);
  }

  /**
    `ks` is a run of indices the random choice can return, one per unpaused
    frame, starting from `s`.
  */
  predicate Driven(s: Gen, ks: seq<int>)
    decreases |ks|
  {
    && Ready(s)
    && (ks != [] ==>
      && (s.visited < Total(s) ==> Admissible(s, ks[0]))
      && Driven(Update(s, false, ks[0]), ks[1..]))
  }

  /** The state after one unpaused `update` per index of `ks`. */
  function Run(s: Gen, ks: seq<int>): (r: Gen)
    requires Driven(s, ks)
    ensures r.cols == s.cols && r.rows == s.rows
    decreases |ks|
  {
    if ks == [] then s else Run(Update(s, false, ks[0]), ks[1..])
  }

  /** Once complete, further updates change nothing. */
  lemma {:induction false} RunStays(s: Gen, ks: seq<int>)
    requires Driven(s, ks) && s.visited >= Total(s)
    ensures Run(s, ks) == s
    decreases |ks|
  {
    if ks != [] {
      RunStays(Update(s, false, ks[0]), ks[1..]);
    }
  }

  /**
    From a valid state, `2 * TOTAL_CELLS - 1 - Progress(s)` unpaused updates
    are enough to complete generation, and the invariant still holds then.
  */
  lemma {:induction false} RunCompletes(s: Gen, ks: seq<int>)
    requires Valid(s) && Driven(s, ks)
    requires Progress(s) + |ks| >= 2 * Total(s) - 1
    ensures Valid(Run(s, ks)) && Run(s, ks).visited == Total(s)
    decreases |ks|
  {
    Bounded(s);
    if s.visited >= Total(s) {
      RunStays(s, ks);
    } else if ks == [] {
      ProgressBound(s);
    } else {
      StepProgress(s, ks[0]);
      UpdateValid(s, false, ks[0]);
      RunCompletes(Update(s, false, ks[0]), ks[1..]);
    }
  }

  /**
    Starting from `__init__`, `2 * TOTAL_CELLS - 2` unpaused updates complete
    the maze, whatever the random choices: every cell is then visited and
    reachable from the start cell through `TOTAL_CELLS - 1` opening pairs.
  */
  lemma GenerationCompletes(cols: int, rows: int, ks: seq<int>)
    requires cols >= 1 && rows >= 1
    requires Driven(Initial(cols, rows), ks) && |ks| >= 2 * (cols * rows) - 2
    ensures Valid(Run(Initial(cols, rows), ks)) && Run(Initial(cols, rows), ks).visited == cols * rows
    ensures forall q :: Inside(Run(Initial(cols, rows), ks), q) ==>
      At(Run(Initial(cols, rows), ks).cells, q).visited && Reachable(Run(Initial(cols, rows), ks), q)
    ensures PassageCount(Run(Initial(cols, rows), ks).cells) == cols * rows - 1
  {
    var s := Initial(cols, rows);
    InitialValid(cols, rows);
    assert Progress(s) == 1 && Total(s) == cols * rows;
    RunCompletes(s, ks);
    CompleteIsSpanningTree(Run(s, ks));
  }
}
