/**
 * The maze engine of maze.py: it builds a grid of cells, opens an entrance
 * and an exit, carves a spanning tree of passages by randomized depth-first
 * search, clears the visited flags, and solves the maze by breadth-first search.
 *
 * The window is modelled by `hasWindow` alone: with a window, drawing a cell
 * records its box; redrawing, pacing and line colours are not modelled.
 * random.randrange is an arbitrary choice among the candidates.
 */
module Mazes {
  import opened Wrappers
  import opened Grid
  import opened Window
  import opened Carving
  import opened Bfs

  /** The exceptions solve() raises: "Maze is blank", and the TypeError of draw_move on an undrawn cell. */
  datatype SolveError = MazeIsBlank | CellNotDrawn

  class Maze {
    const x1: int
    const y1: int
    const numRows: int
    const numCols: int
    const cellSizeX: int
    const cellSizeY: int
    const hasWindow: bool
    /** The cells, cells[i][j] in column i and row j; the list never changes once built. */
    const cells: seq<seq<Cell>>
    /** The position of every cell object; it makes the cells pairwise distinct. */
    ghost const index: map<Cell, Pos>
    /** The wall and visited flags of every cell, as a value. */
    ghost var grid: Grid
    /** The edges carving has knocked down, in carving order. */
    ghost var carved: seq<Edge>

    /** numCols columns of numRows distinct cells, indexed cells[i][j]. */
    ghost predicate Shaped() {
      && numCols >= 0 && numRows >= 0
      && |cells| == numCols
      && (forall i {:trigger cells[i]} :: 0 <= i < numCols ==> |cells[i]| == numRows)
      && (forall i, j {:trigger cells[i][j]} :: 0 <= i < numCols && 0 <= j < numRows ==>
            cells[i][j] in index && index[cells[i][j]] == Pos(i, j))
    }

    /** Shaped, and `grid` holds the flags of every cell. */
    ghost predicate Coupled()
      reads this`grid, index.Keys
    {
      && Shaped()
      && Wf(grid) && grid.cols == numCols && grid.rows == numRows
      && forall i, j {:trigger cells[i][j]} :: 0 <= i < numCols && 0 <= j < numRows ==>
           grid.at[Pos(i, j)] == cells[i][j].State()
    }

    /** The pixel box _draw_cell computes for cell (i, j). */
    function CellBox(i: int, j: int): Box {
      var left := x1 + i * cellSizeX;
      var top := y1 + j * cellSizeY;
      Box(left, top, left + cellSizeX, top + cellSizeY)
    }

    /** Coupled, and every cell has recorded its box exactly when there is a window. */
    ghost predicate Valid()
      reads this`grid, index.Keys
    {
      && Coupled()
      && forall i, j {:trigger cells[i][j]} :: 0 <= i < numCols && 0 <= j < numRows ==>
           cells[i][j].box == if hasWindow then Some(CellBox(i, j)) else None
    }

    /**
     * Maze.__init__: builds and draws the cells, opens the entrance and the
     * exit, carves from the top-left cell and clears the visited flags. The
     * result has no cell visited, the entrance and exit open, one carved
     * passage fewer than there are cells, and every cell reachable from the
     * top-left one.
     */
    constructor (x1: int, y1: int, numRows: int, numCols: int, cellSizeX: int, cellSizeY: int, hasWindow: bool)
      requires numCols >= 1 && numRows >= 1
      ensures this.x1 == x1 && this.y1 == y1 && this.numRows == numRows && this.numCols == numCols
      ensures this.cellSizeX == cellSizeX && this.cellSizeY == cellSizeY && this.hasWindow == hasWindow
      ensures Valid() && fresh(index.Keys)
      ensures Visited(grid) == {}
      ensures !grid.at[Pos(0, 0)].right && !grid.at[Last(grid)].left
      ensures |carved| == numCols * numRows - 1
      ensures forall e :: e in carved ==> Passage(grid, e.0, e.1)
      ensures forall p :: InBounds(numCols, numRows, p) ==> Linked(carved, Pos(0, 0), p)
      ensures forall p :: InBounds(numCols, numRows, p) ==> Reach(grid, Pos(0, 0), p)
      ensures forall x, d :: x in grid.at ==> (!grid.at[x].Wall(d) <==> OpenSide(grid, carved, x, d))
    {
      this.x1, this.y1 := x1, y1;
      this.numRows, this.numCols := numRows, numCols;
      this.cellSizeX, this.cellSizeY := cellSizeX, cellSizeY;
      this.hasWindow := hasWindow;
      var cs;
      ghost var ix;
      cs, ix := NewCells(numCols, numRows);
      cells, index := cs, ix;
      grid, carved := NewGrid(numCols, numRows), [];
      new;
      DrawCells();
      BreakEntranceAndExit();
      ghost var entered := grid;
      BreakWalls(0, 0);
      ghost var carvedGrid := grid;
      ResetCellsVisited();
      Built(numCols, numRows, entered, carvedGrid, grid, carved);
    }

    /** After a write to the flags of the cell at p alone, a `grid` that differs at p alone and agrees with that cell keeps Valid. */
    twostate lemma Recoupled(p: Pos)
      requires old(Valid()) && InBounds(numCols, numRows, p)
      requires grid.cols == old(grid).cols && grid.rows == old(grid).rows && grid.at.Keys == old(grid).at.Keys
      requires grid.at[p] == cells[p.i][p.j].State()
      requires forall q :: q in grid.at && q != p ==> grid.at[q] == old(grid).at[q]
      requires cells[p.i][p.j].box == old(cells[p.i][p.j].box)
      requires forall o :: o in index && o != cells[p.i][p.j] ==> unchanged(o)
      ensures Valid()
    {
      forall k, l | 0 <= k < numCols && 0 <= l < numRows
        ensures grid.at[Pos(k, l)] == cells[k][l].State()
        ensures cells[k][l].box == if hasWindow then Some(CellBox(k, l)) else None
      {
        if Pos(k, l) != p {
          assert index[cells[k][l]] != index[cells[p.i][p.j]];
        }
      }
    }

    /** Records cell (i, j)'s box when there is a window; with none it does nothing. */
    method DrawCell(i: int, j: int)
      requires Coupled() && InBounds(numCols, numRows, Pos(i, j))
      modifies cells[i][j]
      ensures grid == old(grid) && carved == old(carved)
      ensures Coupled() && (old(Valid()) ==> Valid())
      ensures cells[i][j].box == if hasWindow then Some(CellBox(i, j)) else old(cells[i][j].box)
    {
      if !hasWindow {
        return;
      }
      var cx1 := x1 + i * cellSizeX;
      var cy1 := y1 + j * cellSizeY;
      var cx2 := cx1 + cellSizeX;
      var cy2 := cy1 + cellSizeY;
      cells[i][j].Draw(cx1, cy1, cx2, cy2);
    }

    /** Sets the wall flag on side d of cell (i, j) to false. */
    method RemoveWall(i: int, j: int, d: Dir)
      requires Valid() && InBounds(numCols, numRows, Pos(i, j))
      modifies cells[i][j], this`grid
      ensures Valid()
      ensures grid == ClearWall(old(grid), Pos(i, j), d)
    {
      label before:
      match d {
        case Left => cells[i][j].hasLeftWall := false;
        case Right => cells[i][j].hasRightWall := false;
        case Top => cells[i][j].hasTopWall := false;
        case Bottom => cells[i][j].hasBottomWall := false;
      }
      grid := ClearWall(grid, Pos(i, j), d);
      Recoupled@before(Pos(i, j));
    }

    /** Sets the visited flag of cell (i, j). */
    method MarkVisited(i: int, j: int)
      requires Valid() && InBounds(numCols, numRows, Pos(i, j))
      modifies cells[i][j], this`grid
      ensures Valid()
      ensures grid == SetVisited(old(grid), Pos(i, j))
    {
      label before:
      cells[i][j].visited := true;
      grid := SetVisited(grid, Pos(i, j));
      Recoupled@before(Pos(i, j));
    }

    /** Clears the visited flag of cell (i, j). */
    method MarkUnvisited(i: int, j: int)
      requires Valid() && InBounds(numCols, numRows, Pos(i, j))
      modifies cells[i][j], this`grid
      ensures Valid()
      ensures grid == old(grid).(at := old(grid).at[Pos(i, j) := old(grid).at[Pos(i, j)].(visited := false)])
    {
      label before:
      cells[i][j].visited := false;
      grid := grid.(at := grid.at[Pos(i, j) := grid.at[Pos(i, j)].(visited := false)]);
      Recoupled@before(Pos(i, j));
    }

    /** The column the first loop of _create_cells builds for column i: rows new cells, entered in the position map. */
    static method NewColumn(i: int, rows: nat, ghost index0: map<Cell, Pos>) returns (column: seq<Cell>, ghost index1: map<Cell, Pos>)
      ensures |column| == rows
      ensures forall l {:trigger column[l]} :: 0 <= l < rows ==>
                fresh(column[l]) && column[l] in index1 && index1[column[l]] == Pos(i, l)
      ensures forall c :: c in index0 ==> c in index1 && index1[c] == index0[c]
      ensures forall c :: c in index1 ==> c in index0 || c in column
      ensures forall c :: c in column ==> c.State() == NEW_CELL && c.box == None
    {
      column, index1 := [], index0;
      for j := 0 to rows
        invariant |column| == j
        invariant forall l {:trigger column[l]} :: 0 <= l < j ==>
                    fresh(column[l]) && column[l] in index1 && index1[column[l]] == Pos(i, l)
        invariant forall c :: c in index0 ==> c in index1 && index1[c] == index0[c]
        invariant forall c :: c in index1 ==> c in index0 || c in column
        invariant forall c :: c in column ==> c.State() == NEW_CELL && c.box == None
      {
        var cell := new Cell();
        column := column + [cell];
        index1 := index1[cell := Pos(i, j)];
      }
    }

    /** The first loop of _create_cells: cols columns of rows new cells, none drawn yet. */
    static method NewCells(cols: nat, rows: nat) returns (cells: seq<seq<Cell>>, ghost index: map<Cell, Pos>)
      ensures |cells| == cols && forall k {:trigger cells[k]} :: 0 <= k < cols ==> |cells[k]| == rows
      ensures forall k, l {:trigger cells[k][l]} :: 0 <= k < cols && 0 <= l < rows ==>
                cells[k][l] in index && index[cells[k][l]] == Pos(k, l)
      ensures fresh(index.Keys)
      ensures forall c :: c in index ==> c.State() == NEW_CELL && c.box == None
    {
      cells, index := [], map[];
      for i := 0 to cols
        invariant |cells| == i && forall k {:trigger cells[k]} :: 0 <= k < i ==> |cells[k]| == rows
        invariant forall k, l {:trigger cells[k][l]} :: 0 <= k < i && 0 <= l < rows ==>
                    cells[k][l] in index && index[cells[k][l]] == Pos(k, l)
        invariant fresh(index.Keys)
        invariant forall c :: c in index ==> c.State() == NEW_CELL && c.box == None
      {
        var column;
        column, index := NewColumn(i, rows, index);
        cells := cells + [column];
      }
    }

    /** The second loop of _create_cells: draws every cell, column by column. */
    method DrawCells()
      requires Coupled()
      requires forall k, l {:trigger cells[k][l]} :: 0 <= k < numCols && 0 <= l < numRows ==> cells[k][l].box == None
      modifies index.Keys
      ensures grid == old(grid) && carved == old(carved)
      ensures Valid()
    {
      for i := 0 to numCols
        invariant Coupled() && grid == old(grid) && carved == old(carved)
        invariant forall k, l {:trigger cells[k][l]} :: 0 <= k < numCols && 0 <= l < numRows ==>
                    cells[k][l].box == if hasWindow && k < i then Some(CellBox(k, l)) else None
      {
        DrawColumn(i);
      }
    }

    /** The inner drawing loop of _create_cells: draws the cells of column i, top to bottom. */
    method DrawColumn(i: int)
      requires Coupled() && 0 <= i < numCols
      requires forall k, l {:trigger cells[k][l]} :: 0 <= k < numCols && 0 <= l < numRows ==>
                 cells[k][l].box == if hasWindow && k < i then Some(CellBox(k, l)) else None
      modifies index.Keys
      ensures grid == old(grid) && carved == old(carved)
      ensures Coupled()
      ensures forall k, l {:trigger cells[k][l]} :: 0 <= k < numCols && 0 <= l < numRows ==>
                cells[k][l].box == if hasWindow && k <= i then Some(CellBox(k, l)) else None
    {
      for j := 0 to numRows
        invariant Coupled()
        invariant forall k, l {:trigger cells[k][l]} :: 0 <= k < numCols && 0 <= l < numRows ==>
                    cells[k][l].box == if hasWindow && (k < i || (k == i && l < j)) then Some(CellBox(k, l)) else None
      {
        DrawCell(i, j);
      }
    }

    /** Removes the top-left cell's right wall and the bottom-right cell's left wall, on that side only. */
    method BreakEntranceAndExit()
      requires Valid() && numCols >= 1 && numRows >= 1
      modifies index.Keys, this`grid
      ensures Valid()
      ensures grid == OpenEntranceAndExit(old(grid))
    {
      RemoveWall(0, 0, Right);
      RemoveWall(numCols - 1, numRows - 1, Left);
      DrawCell(0, 0);
      DrawCell(numCols - 1, numRows - 1);
    }

    /** The list _break_walls_r builds: the unvisited grid neighbours of (i, j), left, right, up, down. */
    method UnvisitedNeighbours(i: int, j: int) returns (list: seq<Pos>)
      requires Coupled() && InBounds(numCols, numRows, Pos(i, j))
      ensures list == Candidates(grid, Pos(i, j))
    {
      list := [];
      if i > 0 && !cells[i - 1][j].visited {
        list := list + [Pos(i - 1, j)];
      }
      if i < numCols - 1 && !cells[i + 1][j].visited {
        list := list + [Pos(i + 1, j)];
      }
      if j > 0 && !cells[i][j - 1].visited {
        list := list + [Pos(i, j - 1)];
      }
      if j < numRows - 1 && !cells[i][j + 1].visited {
        list := list + [Pos(i, j + 1)];
      }
    }

    /** Knocks out the wall between (i, j) and the adjacent next, on both sides. */
    method KnockDownWall(i: int, j: int, next: Pos)
      requires Valid() && InBounds(numCols, numRows, Pos(i, j)) && InBounds(numCols, numRows, next)
      requires Adjacent(Pos(i, j), next)
      modifies index.Keys, this`grid
      ensures Valid()
      ensures grid == RemoveEdge(old(grid), Pos(i, j), next)
    {
      if next.i == i + 1 {
        RemoveWall(i, j, Right);
        RemoveWall(i + 1, j, Left);
      }
      if next.i == i - 1 {
        RemoveWall(i, j, Left);
        RemoveWall(i - 1, j, Right);
      }
      if next.j == j + 1 {
        RemoveWall(i, j, Bottom);
        RemoveWall(i, j + 1, Top);
      }
      if next.j == j - 1 {
        RemoveWall(i, j, Top);
        RemoveWall(i, j - 1, Bottom);
      }
    }

    /** Clears every visited flag, column by column; no wall flag changes. */
    method ResetCellsVisited()
      requires Valid()
      modifies index.Keys, this`grid
      ensures Valid()
      ensures grid == ClearVisited(old(grid))
    {
      for i := 0 to |cells|
        invariant Valid()
        invariant grid.cols == old(grid).cols && grid.rows == old(grid).rows && grid.at.Keys == old(grid).at.Keys
        invariant forall p :: p in grid.at ==>
                    grid.at[p] == if p.i < i then old(grid).at[p].(visited := false) else old(grid).at[p]
      {
        ResetColumn(i);
      }
    }

    /** The inner loop of _reset_cells_visited: clears the visited flags of column i. */
    method ResetColumn(i: int)
      requires Valid() && 0 <= i < numCols
      modifies index.Keys, this`grid
      ensures Valid()
      ensures grid.cols == old(grid).cols && grid.rows == old(grid).rows && grid.at.Keys == old(grid).at.Keys
      ensures forall p :: p in grid.at ==>
                grid.at[p] == if p.i == i then old(grid).at[p].(visited := false) else old(grid).at[p]
    {
      var column := cells[i];
      for j := 0 to |column|
        invariant Valid()
        invariant grid.cols == old(grid).cols && grid.rows == old(grid).rows && grid.at.Keys == old(grid).at.Keys
        invariant forall p :: p in grid.at ==>
                    grid.at[p] == if p.i == i && p.j < j then old(grid).at[p].(visited := false) else old(grid).at[p]
      {
        MarkUnvisited(i, j);
      }
    }

    /**
     * _break_walls_r: marks (i, j) visited, then while (i, j) has an unvisited
     * grid neighbour, picks one and carves on towards it; when none is left it
     * draws (i, j) and returns.
     */
    method BreakWalls(i: int, j: int)
      requires Valid() && InBounds(numCols, numRows, Pos(i, j))
      modifies index.Keys, this`grid, this`carved
      ensures Valid()
      ensures Carved(old(grid), grid, Pos(i, j), old(carved), carved)
      decreases |Unvisited(grid)|, if grid.at[Pos(i, j)].visited then 2 else 0
    {
      MarkVisited(i, j);
      CarveStart(old(grid), Pos(i, j), old(carved));
      while true
        invariant Valid()
        invariant CarvedSoFar(old(grid), grid, Pos(i, j), old(carved), carved)
        decreases |Unvisited(grid)|
      {
        var list := UnvisitedNeighbours(i, j);
        if |list| == 0 {
          DrawCell(i, j);
          CarveEnd(old(grid), grid, Pos(i, j), old(carved), carved);
          return;
        }
        var k :| 0 <= k < |list|;
        var next := list[k];
        ghost var before, carvedBefore := grid, carved;
        CarveMeasure(old(grid), before, Pos(i, j), old(carved), carvedBefore);
        CarveOn(i, j, next);
        CandidateEdge(before, Pos(i, j), next);
        CarveStep(old(grid), before, Pos(i, j), old(carved), carvedBefore, next, grid, carved);
      }
    }

    /** One turn of the loop of _break_walls_r: knocks out the walls towards the candidate next and recurses into it. */
    method CarveOn(i: int, j: int, next: Pos)
      requires Valid() && InBounds(numCols, numRows, Pos(i, j)) && next in Candidates(grid, Pos(i, j))
      modifies index.Keys, this`grid, this`carved
      ensures Valid()
      ensures Carved(RemoveEdge(old(grid), Pos(i, j), next), grid, next, old(carved) + [(Pos(i, j), next)], carved)
      decreases |Unvisited(grid)|, 1
    {
      CandidateEdge(grid, Pos(i, j), next);
      KnockDownWall(i, j, next);
      carved := carved + [(Pos(i, j), next)];
      BreakWalls(next.i, next.j);
    }

    /** The four guarded appends of _solve_bfs for the cell at (x, y): left, right, down, up. */
    method Expansion(x: int, y: int) returns (adds: seq<Entry>)
      requires Coupled() && InBounds(numCols, numRows, Pos(x, y))
      ensures adds == Expand(grid, Pos(x, y))
    {
      var cell, p := cells[x][y], Pos(x, y);
      assert cell.State() == grid.at[p];
      adds := [];
      if x - 1 >= 0 && !cells[x - 1][y].visited && !cell.hasLeftWall {
        adds := adds + [Entry(Pos(x - 1, y), p)];
      }
      if x + 1 < numCols && !cells[x + 1][y].visited && !cell.hasRightWall {
        adds := adds + [Entry(Pos(x + 1, y), p)];
      }
      if y + 1 < numRows && !cells[x][y + 1].visited && !cell.hasBottomWall {
        adds := adds + [Entry(Pos(x, y + 1), p)];
      }
      if y - 1 >= 0 && !cells[x][y - 1].visited && !cell.hasTopWall {
        adds := adds + [Entry(Pos(x, y - 1), p)];
      }
    }

    /** The start of one turn of _solve_bfs: marks the cell at pos visited and draws the move from it to the cell at prev. */
    method Visit(pos: Pos, prev: Pos) returns (line: Result<Line, DrawError>)
      requires Valid() && InBounds(numCols, numRows, pos) && InBounds(numCols, numRows, prev)
      modifies index.Keys, this`grid
      ensures Valid() && grid == SetVisited(old(grid), pos)
      ensures line.Success? <==> hasWindow
      ensures line.Success? ==> line.value == Line(BoxCentre(CellBox(pos.i, pos.j)), BoxCentre(CellBox(prev.i, prev.j)))
    {
      MarkVisited(pos.i, pos.j);
      line := cells[pos.i][pos.j].DrawMove(cells[prev.i][prev.j], false);
    }

    /**
     * One turn of the loop of _solve_bfs: pops the head of the queue, marks
     * its cell visited, draws the move, and either stops (the draw failed, or
     * the head is the bottom-right cell) or appends the head's expansion.
     */
    method Turn(queue: seq<Entry>, ghost g0: Grid, ghost cleared: bool) returns (stop: Option<Result<bool, SolveError>>, queue1: seq<Entry>)
      requires Valid() && Searching(g0, grid, queue, cleared) && |queue| > 0
      requires !hasWindow ==> grid == g0 && queue == [Entry(ORIGIN, ORIGIN)]
      modifies index.Keys, this`grid
      ensures Valid() && SameWalls(g0, grid) && VisitedOnlyGrows(g0, grid)
      ensures forall p :: p in Visited(grid) - Visited(g0) ==> Reach(g0, ORIGIN, p)
      ensures stop == Some(Failure(CellNotDrawn)) <==> !hasWindow
      ensures !hasWindow ==> ORIGIN in g0.at && grid == SetVisited(g0, ORIGIN)
      ensures stop.Some? && stop != Some(Failure(CellNotDrawn)) ==> stop == Some(Success(true)) && Reach(g0, ORIGIN, Last(g0)) && Last(g0) in Visited(grid)
      ensures Visited(old(grid)) <= Visited(grid) && queue[0].pos in Visited(grid)
      ensures grid == SetVisited(old(grid), queue[0].pos)
      ensures hasWindow && queue[0].pos == Last(g0) ==> stop == Some(Success(true))
      ensures stop == Some(Success(true)) ==> queue[0].pos == Last(g0)
      ensures stop.None? ==> queue1 == queue[1..] + Expand(grid, queue[0].pos)
      ensures stop.None? ==> Searching(g0, grid, queue1, cleared)
      ensures stop.None? ==>
        || |Unvisited(grid)| < |Unvisited(old(grid))|
        || (|Unvisited(grid)| == |Unvisited(old(grid))| && CountVisited(grid, queue1) < CountVisited(old(grid), queue))
    {
      var pos, prev := queue[0].pos, queue[0].prev;
      PopSound(g0, grid, queue, cleared);
      if pos != Last(g0) {
        SearchStep(g0, grid, queue, cleared);
      }
      var line := Visit(pos, prev);
      if line.Failure? {
        return Some(Failure(CellNotDrawn)), [];
      }
      if pos.i == numCols - 1 && pos.j == numRows - 1 {
        return Some(Success(true)), [];
      }
      var adds := Expansion(pos.i, pos.j);
      stop, queue1 := None, queue[1..] + adds;
    }

    /**
     * solve / _solve_bfs: breadth-first search from the top-left cell, which
     * marks each cell visited when it leaves the queue and draws the move to
     * it. It answers true only when the bottom-right cell is reachable, and
     * from a maze with no cell visited it answers exactly that. Without a
     * window the first draw_move fails, after the top-left cell is marked.
     */
    method Solve() returns (r: Result<bool, SolveError>)
      requires Valid() && (numCols >= 1 ==> numRows >= 1)
      modifies index.Keys, this`grid
      ensures Valid() && SameWalls(old(grid), grid) && VisitedOnlyGrows(old(grid), grid)
      ensures r == Failure(MazeIsBlank) <==> numCols == 0
      ensures r == Failure(CellNotDrawn) <==> numCols >= 1 && !hasWindow
      ensures r == Failure(CellNotDrawn) ==> grid == SetVisited(old(grid), ORIGIN)
      ensures r == Success(true) ==> Reach(old(grid), ORIGIN, Last(old(grid)))
      ensures r.Success? && Visited(old(grid)) == {} ==> r.value == Reach(old(grid), ORIGIN, Last(old(grid)))
      ensures forall p :: p in Visited(grid) - Visited(old(grid)) ==> Reach(old(grid), ORIGIN, p)
      ensures r == Success(true) ==> ORIGIN in Visited(grid) && Last(old(grid)) in Visited(grid)
      ensures r == Success(true) ==> Reach(grid, ORIGIN, Last(grid))
      ensures r.Success? && Visited(old(grid)) == {} ==> r.value == Reach(grid, ORIGIN, Last(grid))
    {
      if |cells| == 0 {
        return Failure(MazeIsBlank);
      }
      ghost var cleared := Visited(grid) == {};
      SearchStart(grid, cleared);
      var queue := [Entry(ORIGIN, ORIGIN)];
      while |queue| > 0
        invariant Valid()
        invariant Searching(old(grid), grid, queue, cleared)
        invariant !hasWindow ==> grid == old(grid) && queue == [Entry(ORIGIN, ORIGIN)]
        invariant ORIGIN in Visited(grid) || queue == [Entry(ORIGIN, ORIGIN)]
        decreases |Unvisited(grid)|, CountVisited(grid, queue)
      {
        var stop;
        stop, queue := Turn(queue, old(grid), cleared);
        if stop.Some? {
          ReachSameWalls(old(grid), grid, ORIGIN, Last(grid));
          return stop.value;
        }
      }
      if cleared {
        SearchExhausted(old(grid), grid);
      }
      ReachSameWalls(old(grid), grid, ORIGIN, Last(grid));
      return Success(false);
    }
  }

  /**
   * A maze built by Maze.__init__ and then solved: the carved maze always
   * joins the top-left cell to the bottom-right one, so with a window the
   * answer is true, and without one the solve fails at its first draw.
   */
  method BuildAndSolve(x1: int, y1: int, numRows: int, numCols: int, cellSizeX: int, cellSizeY: int, hasWindow: bool)
    returns (r: Result<bool, SolveError>)
    requires numCols >= 1 && numRows >= 1
    ensures hasWindow <==> r == Success(true)
    ensures !hasWindow <==> r == Failure(CellNotDrawn)
  {
    var maze := new Maze(x1, y1, numRows, numCols, cellSizeX, cellSizeY, hasWindow);
    ghost var g := maze.grid;
    assert Reach(g, ORIGIN, Last(g)) by {
      assert InBounds(numCols, numRows, Last(g));
    }
    r := maze.Solve();
    if r.Failure? {
      assert r.error.MazeIsBlank? || r.error.CellNotDrawn?;
    }
  }
}
