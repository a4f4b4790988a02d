# Maze generator: a verified model of the generation engine

The program draws a perfect maze, one step per frame. The maze is built by a
randomized iterative depth-first backtracker. `Engine` holds four pieces of state:

- a `CELL_ROWS × CELL_COLS` table of cell bitfields, read as `cells[y][x]`;
- a stack of `(x, y)` coordinates, the current depth-first path;
- the `visited_cells` counter;
- the `paused` and `running` flags.

Each frame, `handle_input` updates the flags from the pending events. Then
`update` does nothing when paused or complete. Otherwise it looks at the cell
on top of the stack. If that cell has unvisited neighbours, it carves toward
one chosen at random: the opening bit goes on both cells, the neighbour is
marked visited and pushed, and the counter goes up. If there are none, it
pops the stack.

The model has four modules:

- `Cells` (cells.dfy): the five cell flags, directions, coordinates, the grid
  of cells, the `|=` bit update, and the tallies over the grid (visited cells
  and carved opening pairs).
- `Generator` (generator.dfy): the generator state as a value `Gen`. It holds
  `get_neighbours` (`Neighbours`), the two branches of `update` (`Carve`,
  `Backtrack`), the guarded step (`Step`, `Update`), and the invariant `Valid`
  with the lemmas showing every step keeps it.
- `Input` (input.dfy): the flag pair and how a batch of events changes it.
- `MazeEngine` (engine.dfy): the class `Engine` with the fields above. Its
  constructor models `__init__`, `Update` models `update`, and `HandleInput`
  models `handle_input`. Each update happens in place, and each method's
  `ensures` ties the new fields to the functions of `Generator` and `Input`.

Assumptions and abstractions:

- `CELL_COLS` and `CELL_ROWS` are the constructor parameters `cols` and
  `rows`. The model ASSUMES `cols >= 1`, `rows >= 1` and
  `TOTAL_CELLS == cols * rows`; constants.py, which defines them, is not part
  of this model.
- The five flags `CELL_VISITED`, `NORTH_WALL`, `SOUTH_WALL`, `EAST_WALL` and
  `WEST_WALL` are distinct single bits, modelled as a record of five booleans.
  A set `*_WALL` bit means that the opening on that side has been carved.
- The random choice is a caller-supplied index `k`. It must lie between 0 and
  the number of neighbours less one, which is the range of the random call.
- A pygame event becomes one of `Quit`, `Escape`, `P` or `Other`.
- The invariant `Valid` states five things:
  - openings are mirrored between neighbours and none leads off the grid;
  - only visited cells have openings;
  - the counter equals the number of visited cells;
  - the number of carved opening pairs is the counter minus one;
  - every visited cell is reachable from `(0, 0)` through openings.
  Since openings are mirrored and only join visited cells, each pair is one
  edge of a graph on the visited cells. That graph is connected with one edge
  fewer than it has cells, so by the standard graph-theory fact it is a tree.
  Acyclicity itself is not stated in the model; it follows from that fact.
- `Valid` also states three things about the stack:
  - it is non-empty, starts at `(0, 0)`, and is a walk through carved
    openings over visited cells;
  - it is no longer than the counter;
  - it obeys the depth-first invariant: a visited cell that is not on the
    stack has no unvisited neighbour.
- `update` stops stepping as soon as `visited_cells` reaches `TOTAL_CELLS`
  (main.py:56). So the last cell is never popped, and the stack stays
  non-empty in every reachable state (`Generator.Valid`,
  `Generator.BacktrackValid`).

## Model

| member | source | states |
|---|---|---|
| `MazeEngine.Engine.constructor` | main.py:18-25 | `running` is true and `paused` false. The generator state is `Initial`, and the invariant holds. |
| `Generator.Initial` | main.py:19-24 | Every cell is 0 except `(0, 0)`, which has only the visited bit. The stack is `[(0, 0)]` and the counter is 1. |
| `Generator.InitialValid` | main.py:18-25 | The initial state satisfies the whole invariant: pairing, counts, stack path, depth-first invariant and connectivity. |
| `Cells.Blank` | main.py:19 | The fresh `CELL_ROWS × CELL_COLS` table, with every cell 0. |
| `Cells.SetBit` | main.py:63-80 | `c \| b`: bit `b` is set afterwards and every other bit keeps its value. |
| `Cells.Mark` | main.py:63-80 | `cells[y][x] \|= b`: that cell gains the bit, and the table's shape and every other cell stay the same. |
| `Generator.Top` | main.py:57 | `stack[-1]`: an entry of the stack, with the rest of the stack below it. |
| `Cells.Toward` | main.py:61-80 | The neighbour in direction `d` is exactly one step away. North lowers `y`, South raises it, East raises `x` and West lowers it. |
| `Cells.Opposite` | main.py:61-80 | The mirrored direction differs from `d` and lies on the same axis. |
| `Cells.TowardBack` | main.py:61-80 | The mirrored direction of the mirrored direction is `d`. Stepping toward `d` and then back leads to the start. |
| `Cells.WallBit` | main.py:63-80 | The opening bit of a direction is never the visited bit. |
| `Generator.WallBitInjective` | main.py:63-80 | Different directions have different opening bits. |
| `Generator.ChosenNeighbour` | main.py:59-61 | Any index in the random call's range names a reported direction. Its neighbour is on the grid and unvisited, so the carve is legal. |
| `Generator.Neighbours` | main.py:27-37 | The directions come in strictly increasing order West, East, North, South, so none is repeated. |
| `Generator.AppendIf` | main.py:28-36 | A conditional append keeps the list in order. It adds `d` exactly when the condition holds. |
| `Generator.NeighboursExact` | main.py:27-37 | A direction is reported iff its neighbour is on the grid and not yet visited. |
| `Generator.Carve` | main.py:59-81 | The current cell gains the opening toward `d`. The neighbour gains the mirrored opening and the visited bit. No other bit of the two cells and no other cell changes. The neighbour is pushed and the counter rises by exactly 1. |
| `Generator.Backtrack` | main.py:82-83 | Exactly the top stack entry is removed. The cells and the counter are unchanged. |
| `Generator.Step` | main.py:57-83 | With neighbours, the counter and the stack each grow by one. Otherwise the grid and counter stay and the stack shrinks by one. |
| `Generator.Update` | main.py:55-56 | When paused, or when the counter has reached `TOTAL_CELLS`, the state is returned unchanged. So repeated calls after completion are idempotent. |
| `MazeEngine.Engine.Update` | main.py:55-83 | The new state is `Generator.Update` of the old one, and the invariant is kept. The flags are not modified. |
| `MazeEngine.Engine.CarveToward` | main.py:59-81 | A carve toward a reported neighbour leaves the state equal to `Carve` of the old one, and keeps the invariant. |
| `MazeEngine.Engine.OpenPassage` | main.py:61-81 | The four branches over `next_dir` push the neighbour, do the three `\|=` updates in the source's order and bump the counter, giving `Carve` of the old state. |
| `Generator.PairedIff` | main.py:61-80 | In a valid state, an opening toward an on-grid neighbour is set iff the neighbour has the mirrored opening. No opening leads off the grid. |
| `Generator.CarvePaired` | main.py:61-80 | A carve toward an unvisited neighbour keeps openings mirrored and on the grid. |
| `Generator.CarveOpenVisited` | main.py:61-80 | After a carve, only visited cells have openings. |
| `Generator.CarveCounts` | main.py:59-81 | A carve adds exactly one visited cell and exactly one carved opening pair. |
| `Generator.CarveStack` | main.py:59-81 | After a carve, the stack is still a walk through openings over visited cells, and every visited cell is still reachable from `(0, 0)`. |
| `Generator.CarveDeadEnds` | main.py:59-81 | A carve keeps the depth-first invariant. |
| `Generator.CarveValid` | main.py:59-81 | A carve toward any reported neighbour keeps the whole invariant. |
| `Generator.BacktrackDeadEnds` | main.py:82-83 | The popped cell has no unvisited neighbour, so the depth-first invariant survives the pop. |
| `Generator.BacktrackValid` | main.py:82-83 | A pop from a dead end before completion keeps the whole invariant. In particular the stack stays non-empty. |
| `Generator.EmptyStackMeansComplete` | main.py:56-57 | If the stack is empty while the counter is exact and the depth-first invariant holds, every visited cell is a dead end. So the visited region holding `(0, 0)` is the whole grid and the counter equals `TOTAL_CELLS`. Hence `stack[-1]` is never reached on an empty stack before completion. |
| `Generator.StepValid` | main.py:57-83 | Every step taken before completion keeps the invariant. |
| `Generator.UpdateValid` | main.py:55-83 | `update` keeps the invariant whatever the flags and the chosen index. |
| `Generator.Bounded` | main.py:56-83 | In a valid state, 0 < stack depth <= `visited_cells` <= `TOTAL_CELLS`. |
| `Generator.CompleteIsSpanningTree` | main.py:56-83 | At completion, every cell is visited and reachable from `(0, 0)`, and there are `TOTAL_CELLS - 1` opening pairs. A connected graph with one edge fewer than its cells is a tree, so the openings form a spanning tree; acyclicity itself is not stated. |
| `Generator.StepProgress` | main.py:57-83 | Every step raises `2 * visited_cells - len(stack)` by exactly one. |
| `Generator.ProgressBound` | main.py:56 | In a valid state that measure is at most `2 * TOTAL_CELLS - 1`. Reaching that value means generation is complete. |
| `Generator.RunStays` | main.py:55-56 | Once generation is complete, any further run of updates leaves the state unchanged. |
| `Generator.RunCompletes` | main.py:55-83 | From a valid state with measure `m`, any run of at least `2 * TOTAL_CELLS - 1 - m` unpaused updates ends complete and valid. |
| `Generator.GenerationCompletes` | main.py:18-83 | From `__init__`, `2 * TOTAL_CELLS - 2` unpaused updates complete the maze, whatever the random choices. Every cell is then visited and reachable from `(0, 0)`, and there are `TOTAL_CELLS - 1` opening pairs. |
| `Cells.GridVisits` | main.py:56 | The visited tally is at most `cols * rows`. It equals that iff every cell is visited. |
| `Cells.MarkSum` | main.py:63-81 | Setting one bit changes a tally only by the change at that one cell. |
| `MazeEngine.Engine.HandleInput` | main.py:45-53 | The flags become `HandleEvents` of the old flags. `running` ends true iff it was true and no Quit or Escape came. `paused` ends flipped iff an odd number of `P` came. The grid, stack and counter are unchanged. |
| `Input.HandleEvent` | main.py:47-53 | One event: Quit and Escape clear `running`, `p` flips `paused`, and anything else changes neither flag. |
| `Input.HandleEvents` | main.py:45-53 | After a batch, `running` is true iff it was true before and the batch held no Quit and no Escape. `paused` ends flipped iff the batch held an odd number of `P`. |
| `Input.HandleEventsAppend` | main.py:45-53 | Handling two batches one after the other equals handling their concatenation. |
| `Input.StoppedStaysStopped` | main.py:47-51 | Once `running` is false, no event sets it back. |

## Left out

- The pygame set-up, the window, the caption and the surface: these are calls into a foreign library.
- `render` and `draw_borders`: pixel drawing only, with no effect on the generator state.
- The frame-rate cap run at the end of `update`, plus `main_loop`, its `print` and `main`: I/O and loop plumbing.
- The `random` module: it is replaced by the chosen index `k`. The model does not capture that the choice is uniform.
- constants.py is not part of this model. The grid size comes in as constructor parameters, under the assumptions stated above, and the `DIR_*` and bit constants are symbolic values.
- Integer width: Python integers are unbounded, so nothing wraps, and the model uses unbounded integers too.
- A 2 × 2 grid is not traced step by step. `Generator.GenerationCompletes` covers it: after six unpaused updates every cell is visited and reachable from `(0, 0)`, through three opening pairs.
- `Generator.Admissible` and `Generator.Driven` are predicates with no contract of their own. They state which indices the random call can return; `Generator.ChosenNeighbour` and `Generator.RunCompletes` carry the properties.
