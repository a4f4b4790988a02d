/**
  `Engine`: the object that holds the maze-generation state and the
  pause/quit flags, and updates them in place, one frame at a time.
*/
module MazeEngine {
  import opened Cells
  import opened Generator
  import opened Input

  class Engine {
    /** `CELL_COLS` and `CELL_ROWS`, each taken to be at least 1. */
    const cols: int
    const rows: int

    /** `cells[y][x]` */
    var cells: Grid
    /** `stack`, the current depth-first path; its last entry is the current cell. */
    var stack: seq<Pos>
    var visitedCells: int
    var paused: bool
    var running: bool

    /** The generator state, as a value. */
    function State(): Gen
      reads this
    {
      Gen(cols, rows, cells, stack, visitedCells)
    }

    /** The flag pair, as a value. */
    function Flags(): Controls
      reads this
    {
      Controls(running, paused)
    }

    ghost predicate Valid()
      reads this
    {
      Generator.Valid(State())
    }

    /** `__init__`, without the window: a blank grid with the start cell visited and on the stack. */
    constructor (cols: int, rows: int)
      requires cols >= 1 && rows >= 1
      ensures Valid()
      ensures State() == Initial(cols, rows)
      ensures running && !paused
    {
      this.cols := cols;
      this.rows := rows;
      running := true;
      cells := Blank(cols, rows);
      stack := [];
      new;
      stack := stack + [Pos(0, 0)];
      cells := Mark(cells, Pos(0, 0), CellVisited);
      visitedCells := 1;
      paused := false;
      InitialValid(cols, rows);
    }

    /**
      `update`, without the frame pacing. `k` stands for the index the
      random choice returns, which lies between 0 and the number of
      neighbours less one.
    */
    method Update(k: int)
      requires Valid()
      requires !paused && visitedCells < cols * rows ==> Admissible(State(), k)
      modifies this`cells, this`stack, this`visitedCells
      ensures Valid()
      ensures State() == Generator.Update(old(State()), paused, k)
    {
      if !paused && visitedCells < cols * rows {
        var p := stack[|stack| - 1];
        var neighbours := Neighbours(State(), p);
        if neighbours != [] {
          var next := neighbours[k];
          CarveToward(next);
        } else {
          stack := stack[..|stack| - 1];
        }
      }
      UpdateValid(old(State()), paused, k);
    }

    /**
      The carve branch of `update`, toward `next_dir`, one of the reported
      neighbours: the state becomes `Carve` of the old one and the invariant
      is kept.
    */
    method CarveToward(next: Dir)
      requires Valid()
      requires Ready(State()) && next in Neighbours(State(), Top(State()))
      modifies this`cells, this`stack, this`visitedCells
      ensures Valid()
      ensures State() == Carve(old(State()), next)
    {
      ghost var s0 := State();
      NeighboursExact(s0, Top(s0));
      OpenPassage(next);
      CarveValid(s0, next);
    }

    /**
      The four arms of the carve branch, one per direction: push the
      neighbour, set the opening on both sides and mark the neighbour visited,
      then count it.
    */
    method OpenPassage(next: Dir)
      requires Ready(State()) && Inside(State(), Toward(Top(State()), next))
      modifies this`cells, this`stack, this`visitedCells
      ensures State() == Carve(old(State()), next)
    {
      var x, y := stack[|stack| - 1].x, stack[|stack| - 1].y;
      match next {
      case North =>
        stack := stack + [Pos(x, y - 1)];
        cells := Mark(cells, Pos(x, y), NorthWall);
        cells := Mark(cells, Pos(x, y - 1), SouthWall);
        cells := Mark(cells, Pos(x, y - 1), CellVisited);
      case South =>
        stack := stack + [Pos(x, y + 1)];
        cells := Mark(cells, Pos(x, y), SouthWall);
        cells := Mark(cells, Pos(x, y + 1), NorthWall);
        cells := Mark(cells, Pos(x, y + 1), CellVisited);
      case East =>
        stack := stack + [Pos(x + 1, y)];
        cells := Mark(cells, Pos(x, y), EastWall);
        cells := Mark(cells, Pos(x + 1, y), WestWall);
        cells := Mark(cells, Pos(x + 1, y), CellVisited);
      case West =>
        stack := stack + [Pos(x - 1, y)];
        cells := Mark(cells, Pos(x, y), WestWall);
        cells := Mark(cells, Pos(x - 1, y), EastWall);
        cells := Mark(cells, Pos(x - 1, y), CellVisited);
      }
      visitedCells := visitedCells + 1;
    }

    /** `handle_input`, over the events of one frame; the grid, stack and counter are left alone. */
    method HandleInput(events: seq<Event>)
      modifies this`running, this`paused
      ensures Flags() == HandleEvents(old(Flags()), events)
      ensures running == (old(running) && Quit !in events && Escape !in events)
      ensures paused == (old(paused) != (Toggles(events) % 2 == 1))
      ensures State() == old(State())
    {
      for i := 0 to |events|
        invariant Flags() == HandleEvents(old(Flags()), events[..i])
      {
        assert events[..i + 1][..i] == events[..i];
        match events[i]
        case Quit => running := false;
        case Escape => running := false;
        case P => paused := !paused;
        case Other =>
      }
      assert events[..|events|] == events;
    }
  }
}
