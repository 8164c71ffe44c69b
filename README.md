# Maze generation and solving, modelled in Dafny

This project models the maze engine in `maze.py` and the cell record it uses from `window.py`.

A `Maze` owns a `num_cols × num_rows` grid of cells. Each cell has four wall flags and a visited flag. Construction runs four phases:

1. Build and draw the cells (`_create_cells`).
2. Open an entrance and an exit (`_break_entrance_and_exit`).
3. Carve passages by randomized depth-first search from the top-left cell (`_break_walls_r`).
4. Clear every visited flag (`_reset_cells_visited`).

`solve` then runs a breadth-first search (`_solve_bfs`) from the top-left cell to the bottom-right cell. It marks cells visited as they leave the queue and draws each move.

The model is imperative, like the source:

- `Mazes.Maze` is a class. Its `cells` field is a list of columns of `Window.Cell` objects.
- Carving and solving update the cells' flags in place.
- `_break_walls_r` keeps its `while True` loop and its recursion.
- `_solve_bfs` keeps its `while queue` loop over a queue of entries.

Beside the cells, each maze keeps three ghost fields:

- `index` maps each cell object to its position. It is fixed at construction and gives the frames of the in-place writes.
- `grid` is the value of all flags. `Valid()` keeps it equal to the cells' own flags after every write.
- `carved` lists the edges carving has knocked down.

Every method is specified against functions on grid values. Those functions are in three modules:

- `Grid`: positions, neighbours, moves and reachability.
- `Carving`: the carving invariant, connection through knocked-down edges, and what carving achieves.
- `Bfs`: the search invariant, soundness and completeness.

The properties are proved about those functions.

Modules:

- `wrappers.dfy`: `Option` and `Result`.
- `window.dfy`: the cell record, the box it is drawn in, and the centre arithmetic of `draw_move`.
- `grid.dfy`: the grid as a value, and the facts carving and solving both use.
- `carving.dfy`: carving on grid values.
- `bfs.dfy`: the breadth-first search on grid values.
- `maze.dfy`: the `Maze` class, and `Mazes.BuildAndSolve`, which builds a maze and solves it.

Randomness, drawing and errors are modelled as follows:

- **Random choice.** `random.randrange` becomes an arbitrary choice (`:|`) among the candidates. Every property therefore holds for every sequence of random choices.
- **The window.** It is represented by the boolean `hasWindow`. With a window, drawing a cell records its box. Without one, `_draw_cell` does nothing.
- **Line segments.** `Cell.DrawMove` returns the segment it would draw. Emitting it is not modelled.
- **Errors in `solve`.** It raises an exception on a blank maze. `draw_move` fails on a cell that was never drawn. Both are modelled as `Failure` values of `Mazes.SolveError`.

## Model

| member | source | states |
|---|---|---|
| Window.Centre | window.py:92-99 | The centre coordinate `lo + abs(lo - hi) div 2`. When lo ≤ hi it lies in [lo, hi] and is the lower midpoint. When hi < lo it is not below lo. |
| Window.BoxCentre | window.py:92-99 | The centre of a box lies inside the box on each axis whose corners are ordered. |
| Window.Cell.constructor | window.py:52-62 | A new cell has all four walls, no recorded box, and is not visited. |
| Window.Cell.Draw | window.py:64-89 | Drawing records exactly the four given coordinates as the box. It leaves every wall flag and the visited flag unchanged. |
| Window.Cell.DrawMove | window.py:91-102 | It succeeds exactly when both cells have a recorded box. The source also raises when the cell has no window (window.py:102); inside a maze that cannot happen, because a box is recorded only when there is a window (maze.py:35-36). The segment runs from this cell's box centre to the other cell's box centre, and with ordered corners the start lies in this cell's box. It changes no cell (no modifies clause). |
| Grid.NewGrid | maze.py:24-29 | The grid of a new maze is well formed, cols × rows, and every cell in it is new. |
| Grid.PositionsCount | maze.py:24-29 | A cols × rows grid has cols·rows positions. |
| Grid.CandidatesAreUnvisitedNeighbours | maze.py:59-73 | The candidate list holds a position exactly when it is an in-bounds, unvisited 4-neighbour. |
| Grid.CandidatesInOrder | maze.py:59-73 | The candidates are listed in strictly increasing order left, right, up, down. |
| Grid.RemoveEdgeEffect | maze.py:85-101 | Knocking down an edge opens a passage in both directions. Only the two facing wall flags change, and every visited flag is kept. |
| Grid.OpenEntranceAndExitEffect | maze.py:50-52 | Opening the maze clears the top-left cell's right wall and the bottom-right cell's left wall, and changes no other flag. In particular, the neighbours' matching walls are not cleared, except on a 2×1 grid, where the two cleared flags face each other and form a passage. |
| Grid.ClearVisitedEffect | maze.py:106-109 | Clearing leaves no cell visited and keeps every wall. |
| Grid.SetVisited | maze.py:127-131 | Marking a cell visited sets its flag and keeps the walls and every other cell. |
| Grid.SetVisitedSets | maze.py:127-131 | Marking a cell visited adds it to the visited set and removes it from the unvisited set. |
| Grid.ReachSameWalls | maze.py:131 | Reachability depends only on the walls, so visited flags set during a solve do not change it. `Mazes.Maze.Solve` uses it to state its answer in the final grid. |
| Grid.ClosedHoldsReach | maze.py:162 | A set of cells that no move leaves contains everything reachable from its members. |
| Grid.CoversGrid | maze.py:56-104 | A set closed under grid adjacency that holds one cell holds the whole grid. |
| Carving.CarveStart | maze.py:57 | Marking the starting cell visited begins the carving invariant. |
| Carving.CarveEnd | maze.py:75-79 | When the candidate list is empty, carving from the cell is complete: none of its neighbours is unvisited. |
| Carving.CarveMeasure | maze.py:56-104 | During carving the number of unvisited cells never grows. It drops while the start cell was unvisited on entry. This is the termination measure of the recursion. |
| Carving.CandidateEdge | maze.py:81-101 | The chosen candidate is an in-bounds, unvisited neighbour. Knocking down the wall towards it leaves the set of unvisited cells unchanged. |
| Carving.CarveStep | maze.py:81-104 | Knocking down the edge to a candidate and carving completely from it preserves the invariant and strictly reduces the number of unvisited cells. The invariant says: walls only removed; visited flags only set; every newly visited cell linked to the current cell through knocked-down edges and, except the current one, with all neighbours visited; one open passage per newly visited cell; and every wall flag cleared since the start is a facing side of one of the appended edges, so the walls carving removes are exactly both sides of each knocked-down edge. |
| Carving.StepCleared | maze.py:85-104 | One loop turn adds to the flags cleared before it only the knocked-down edge's two sides and the flags the recursive carve clears. So every wall flag cleared since carving from the current cell began is a facing side of an edge appended since then. |
| Carving.LinkedReach | maze.py:85-104 | When every knocked-down edge is an open passage, a connection through those edges is a route the solver can follow. |
| Carving.LinkedTrans | maze.py:103-104 | Connections through knocked-down edges compose, as the recursion into the next cell extends the trail. |
| Carving.LinkedGrows | maze.py:85-104 | Knocking down more walls keeps every connection through knocked-down edges. |
| Carving.CarvedEverything | maze.py:56-104 | Carving from the top-left cell of an unvisited grid visits every cell. It logs exactly cols·rows − 1 edges, each an open passage in both directions, and those edges alone link every cell to the top-left cell. |
| Carving.CarvedVisitsAll | maze.py:56-104 | After carving from the top-left cell, the visited cells are all cols·rows cells of the grid. |
| Carving.Opened | maze.py:20-22 | The entrance and exit openings and every passage survive carving and the visited reset. |
| Carving.Built | maze.py:19-22 | The four phases of construction yield these results: no cell visited; the entrance and exit open; cols·rows − 1 carved passages, which link every cell to the top-left cell; every cell reachable from the top-left cell. A wall flag is down exactly when it is the entrance, the exit, or a facing side of a carved edge; every other wall of the new grid is still up. |
| Carving.BuiltWalls | maze.py:19-22 | After carving and the visited reset, a wall flag is down if and only if it is the top-left cell's right wall, the bottom-right cell's left wall, or a facing side of a carved edge. |
| Carving.DownIsOpen | maze.py:50-104 | Every wall flag that is down after building is the entrance, the exit or a side of a carved edge. |
| Carving.OpenIsDown | maze.py:50-104 | The entrance, the exit and both sides of every carved edge are down after building. |
| Carving.NewGridOpened | maze.py:19-20 | A new grid with its entrance and exit opened is well formed, has no cell visited, and has both openings. |
| Bfs.ExpandSound | maze.py:137-160 | Every appended entry is a move from the popped cell, respecting its own facing wall, to an unvisited cell, with the popped cell as its predecessor. |
| Bfs.ExpandComplete | maze.py:137-160 | Every unvisited cell the popped cell can move to is appended. |
| Bfs.CountVisitedConcat | maze.py:137-160 | The count of queue entries with a visited cell adds up over concatenation. It is part of the search's termination measure. |
| Bfs.CountVisitedNone | maze.py:137-160 | Entries for unvisited cells add nothing to that count. |
| Bfs.SearchStart | maze.py:122 | The queue holding the top-left cell alone satisfies the search invariant. |
| Bfs.PopSound | maze.py:127-131 | The popped cell is reachable from the top-left cell. Marking it visited keeps every wall, only sets flags, and every newly visited cell is reachable. |
| Bfs.SearchStep | maze.py:124-160 | A turn that does not return preserves the search invariant. It lowers, lexicographically, the number of unvisited cells and then the number of queued entries whose cell is visited, so the loop terminates. |
| Bfs.StepSound | maze.py:127-160 | After a turn, every queued entry is in the grid and its cell is reachable from the top-left cell. |
| Bfs.StepComplete | maze.py:127-160 | Starting from a grid with no cell visited, after a turn every move out of a visited cell leads to a visited or queued cell, and the bottom-right cell is not yet visited. |
| Bfs.QueuedAfterPop | maze.py:127-160 | After popping the head and appending, every previously queued position other than the head's is still queued, and every appended one is queued. |
| Bfs.ExpansionQueued | maze.py:137-160 | An unvisited cell the popped cell can move to is queued after the turn. |
| Bfs.SearchExhausted | maze.py:124-162 | When the queue empties in a search from a grid with no cell visited, the bottom-right cell is not reachable from the top-left cell. |
| Mazes.Maze.constructor | maze.py:9-22 | A new maze has no cell visited, the entrance and exit open, and cols·rows − 1 carved passages. The carved edges link every cell to the top-left cell, every cell is reachable from it, and every cell's box is recorded exactly when there is a window. A wall flag is down exactly when it is the entrance, the exit, or a facing side of a carved edge. It requires at least one column and one row. |
| Mazes.Maze.NewColumn | maze.py:26-29 | The inner loop of `_create_cells` builds rows fresh, distinct, new cells for the column. |
| Mazes.Maze.NewCells | maze.py:24-29 | `_create_cells` builds exactly cols columns of rows fresh, distinct cells, each with all walls, unvisited and undrawn. |
| Mazes.Maze.DrawCells | maze.py:30-32 | Drawing every cell records each cell's box (with a window) and changes no flag. |
| Mazes.Maze.DrawColumn | maze.py:31-32 | Drawing column i records the boxes of that column and changes no flag. |
| Mazes.Maze.DrawCell | maze.py:34-41 | With a window, the cell's box is `(x1 + i·size_x, y1 + j·size_y)` to that plus the cell size. Without a window nothing changes. No flag changes either way. |
| Mazes.Maze.BreakEntranceAndExit | maze.py:50-54 | The grid after it is exactly the opened grid: two wall flags cleared, on two cells, or both on the one cell of a 1×1 grid. |
| Mazes.Maze.UnvisitedNeighbours | maze.py:59-73 | The list built equals the candidate list (the in-bounds unvisited neighbours, left, right, up, down). It changes nothing. |
| Mazes.Maze.RemoveWall | maze.py:88-101 | Clearing one wall flag of a cell in place changes the grid by exactly that flag, and the cells stay coupled to the grid. |
| Mazes.Maze.MarkVisited | maze.py:127-131 | Setting one cell's visited flag in place changes the grid by exactly that flag, and the cells stay coupled to the grid. |
| Mazes.Maze.KnockDownWall | maze.py:85-101 | The grid after it is the grid with the shared edge of the cell and its neighbour removed on both sides. |
| Mazes.Maze.BreakWalls | maze.py:56-104 | `_break_walls_r(i, j)` terminates and completes carving from (i, j). Afterwards (i, j) and all its neighbours are visited, walls were only removed and flags only set, and every newly visited cell is linked to (i, j) through knocked-down edges. It appends exactly one open passage per newly visited cell other than (i, j), and every wall flag it clears is a facing side of one of the edges it appends. |
| Mazes.Maze.CarveOn | maze.py:81-104 | One loop turn: the shared wall towards the chosen candidate is knocked down, the edge is recorded, and carving from the candidate is complete, with every further wall flag it clears a facing side of an edge appended after that one. |
| Mazes.Maze.ResetCellsVisited | maze.py:106-109 | The grid after it is the grid with every visited flag cleared and every wall kept. |
| Mazes.Maze.MarkUnvisited | maze.py:106-109 | Clearing one cell's visited flag in place changes the grid by exactly that flag, keeping its walls, and the cells stay coupled to the grid. |
| Mazes.Maze.ResetColumn | maze.py:107-109 | Clears the visited flags of one column and changes nothing else. |
| Mazes.Maze.Expansion | maze.py:137-160 | The four guarded appends produce exactly the expansion of the cell: left, right, down, up. |
| Mazes.Maze.Visit | maze.py:131-132 | The cell is marked visited. The move line is produced exactly when there is a window, running from the cell's box centre to its predecessor's. |
| Mazes.Maze.Turn | maze.py:124-160 | One loop turn pops the head and sets exactly that cell's visited flag, keeping the walls and keeping newly visited cells reachable. Without a window it stops with `CellNotDrawn` after marking the top-left cell. With a window it answers true exactly when the popped cell is the bottom-right cell. Otherwise the new queue is exactly the rest of the queue followed by the popped cell's expansion, and the search invariant holds again with a smaller measure. |
| Mazes.Maze.Solve | maze.py:111-162 | It fails with `MazeIsBlank` exactly when there are no columns. It fails with `CellNotDrawn` exactly when there is no window, after marking the top-left cell visited. It never changes a wall, and visited flags only go from false to true. `true` implies the bottom-right cell is reachable from the top-left cell, and then both are visited. From a grid with no cell visited, the answer equals that reachability. Both facts hold in the grid before and in the grid after the solve. |
| Mazes.BuildAndSolve | maze.py:9-162 | Solving a newly built maze answers true exactly when there is a window. Without one it fails with `CellNotDrawn`. |

## Left out

- The `Window` class (window.py:4-28) is left out: the tkinter root, the canvas, the event loop, and `redraw`, `wait_for_close` and `close`. It is user interface only. The window is represented by `hasWindow`.
- `Point` and `Line` (window.py:31-38) are kept only as plain values: `DrawMove` returns a `Line` of two `Point`s. `Line.draw` (window.py:40-48) is left out, along with the emission and colour of segments in `Cell.draw` and `draw_move`. These are rendering calls into a graphics library. `Draw` only records its box, and `DrawMove` only returns its segment.
- Window.Cell.Draw: without a window the source records the box and then raises at the first `draw_line` (window.py:68 or 71). The model's `Draw` does not raise, because the maze calls it only with a window (maze.py:35-36).
- `_animate`, `time.sleep` and `ANIMATE_SPEED` (maze.py:44-48, 125) are left out. They only pace the animation. `constants.py` is not part of this model.
- The seed handling (maze.py:17-18) is left out; it is process-global state. `random.randrange` (maze.py:82) is an arbitrary choice among the candidates, so nothing is claimed about which maze a seed yields.
- The `_solve_r` stub (maze.py:114-116) is left out; it has no behaviour.
- The queue triple's cell object (maze.py:122, 142-160) is not stored in the model's queue. It is always `cells[x][y]` for the entry's position, so an entry is only the position and its predecessor.
- The draw failure without a window: `_solve_bfs` calls `draw_move` on cells that were never drawn, and subtracts `None` box corners, which raises a `TypeError`. The model returns `Failure(CellNotDrawn)` at that point, after the top-left cell has been marked visited, as in the source.
- Mazes.Maze.constructor: the interpreter's recursion limit is not modelled. `_break_walls_r` recurses once per newly carved cell (maze.py:104), so on a large maze CPython's default limit of about 1000 frames can raise `RecursionError` once the depth-first path gets that deep. The model's constructor succeeds for every size.
- Mazes.Maze.BreakWalls: the same recursion limit is not modelled; the recursion is unbounded in the model.
- Mazes.Maze.constructor: it requires `numCols >= 1 && numRows >= 1`. With no column or no row, `_break_entrance_and_exit` indexes `cells[0][0]` (maze.py:51) and raises. Also, the model has no negative dimensions: Python's `range` yields nothing for them, and the same indexing would then fail.
- Mazes.Maze.Solve: it requires `numCols >= 1 ==> numRows >= 1`. With columns and no rows, `_solve_bfs` raises an `IndexError` at `cells[0][0]` (maze.py:122), and that error is not modelled. Such a maze cannot be built anyway.
- Mazes.Maze.Solve: completeness ("false only when the bottom-right cell is unreachable") is stated only for a grid with no cell visited at entry. That is the state the constructor leaves. A second `solve` on the same maze starts with cells already visited, which the search never enqueues. For that case only soundness is proved: a true answer still implies reachability.
- Carving.CarvedEverything states the spanning tree as: cols·rows − 1 carved edges, each an open passage, that link all cols·rows cells. `Carving.Built` adds that the only walls down are the entrance, the exit and the sides of those edges. A connected graph on n vertices with n − 1 edges is a tree, so these edges are distinct and acyclic. That graph-theory step is not proved in Dafny, and neither is "exactly one simple path between two cells". The solver's reachability (`Grid.Reach`) is along any move whose own facing wall is absent, so it also admits the one-sided entrance and exit openings.
- The "each cell is enqueued at most once" claim is not made, because the source can enqueue a cell twice (maze.py:131, 137-160). The model keeps that behaviour, and termination is proved with a measure that tolerates duplicates.
- Integer widths: Python integers are unbounded, like Dafny's `int`, so no wrap-around applies.
- Coordinates and cell sizes are `int` in the model (`Window.Box`, `Mazes.Maze`). The source accepts any numbers, for example float cell sizes, where `//` floors to a float. Non-integer geometry is not modelled; it affects only drawing.
