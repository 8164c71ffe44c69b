/**
 * A value view of the maze grid: every position's four wall flags and its
 * visited flag, the neighbours carving may pick, the moves the solver may make,
 * reachability along those moves, and the facts carving and solving rely on.
 */
module Grid {

  /** Column i, row j; column 0 is on the left and row 0 at the top. */
  datatype Pos = Pos(i: int, j: int)

  datatype Dir = Left | Right | Top | Bottom

  datatype CellState = CellState(left: bool, right: bool, top: bool, bottom: bool, visited: bool)
  {
    function Wall(d: Dir): bool {
      match d
      case Left => left
      case Right => right
      case Top => top
      case Bottom => bottom
    }

    /** This cell with its wall on side d removed and every other flag kept. */
    function Without(d: Dir): (s: CellState)
      ensures !s.Wall(d) && s.visited == visited
      ensures forall e :: e != d ==> s.Wall(e) == Wall(e)
    {
      match d
      case Left => this.(left := false)
      case Right => this.(right := false)
      case Top => this.(top := false)
      case Bottom => this.(bottom := false)
    }
  }

  /** The state of a new cell: all four walls present, unvisited. */
  const NEW_CELL := CellState(true, true, true, true, false)

  /** The flags of a cols x rows grid, one entry per position. */
  datatype Grid = Grid(cols: int, rows: int, at: map<Pos, CellState>)

  predicate InBounds(cols: int, rows: int, p: Pos) {
    0 <= p.i < cols && 0 <= p.j < rows
  }

  function Positions(cols: int, rows: int): (ps: set<Pos>)
    ensures forall p :: p in ps <==> InBounds(cols, rows, p)
  {
    set i, j | 0 <= i < cols && 0 <= j < rows :: Pos(i, j)
  }

  /** A grid value holds exactly one state per position of the rectangle. */
  ghost predicate Wf(g: Grid) {
    g.cols >= 0 && g.rows >= 0 && forall p :: p in g.at <==> InBounds(g.cols, g.rows, p)
  }

  /** The grid _create_cells builds: every cell new. */
  function NewGrid(cols: nat, rows: nat): (g: Grid)
    ensures Wf(g) && g.cols == cols && g.rows == rows
    ensures forall p :: p in g.at ==> g.at[p] == NEW_CELL
  {
    Grid(cols, rows, map p | p in Positions(cols, rows) :: NEW_CELL)
  }

  function Last(g: Grid): Pos {
    Pos(g.cols - 1, g.rows - 1)
  }

  function Column(i: int, rows: int): set<Pos> {
    set j | 0 <= j < rows :: Pos(i, j)
  }

  lemma {:induction false} ColumnCount(i: int, rows: nat)
    ensures |Column(i, rows)| == rows
  {
    if rows == 0 {
      assert Column(i, rows) == {};
    } else {
      ColumnCount(i, rows - 1);
      assert Column(i, rows) == Column(i, rows - 1) + {Pos(i, rows - 1)};
    }
  }

  /** A cols x rows grid has cols * rows positions. */
  lemma {:induction false} PositionsCount(cols: nat, rows: nat)
    ensures |Positions(cols, rows)| == cols * rows
  {
    if cols == 0 {
      assert Positions(cols, rows) == {};
    } else {
      PositionsCount(cols - 1, rows);
      ColumnCount(cols - 1, rows);
      assert Positions(cols, rows) == Positions(cols - 1, rows) + Column(cols - 1, rows);
      assert Positions(cols - 1, rows) !! Column(cols - 1, rows);
      assert |Positions(cols, rows)| == (cols - 1) * rows + rows;
      assert (cols - 1) * rows + rows == cols * rows;
    }
  }

  // ----- Neighbours and sides -----

  predicate Adjacent(p: Pos, q: Pos) {
    || (p.j == q.j && (q.i == p.i - 1 || q.i == p.i + 1))
    || (p.i == q.i && (q.j == p.j - 1 || q.j == p.j + 1))
  }

  /** The side of p that faces the adjacent position q ("up" is row j - 1). */
  function Facing(p: Pos, q: Pos): (d: Dir)
    requires Adjacent(p, q)
    ensures d == Left <==> q == Pos(p.i - 1, p.j)
    ensures d == Right <==> q == Pos(p.i + 1, p.j)
    ensures d == Top <==> q == Pos(p.i, p.j - 1)
    ensures d == Bottom <==> q == Pos(p.i, p.j + 1)
  {
    if q.i == p.i + 1 then Right
    else if q.i == p.i - 1 then Left
    else if q.j == p.j + 1 then Bottom
    else Top
  }

  /** The order in which carving lists neighbours: left, right, up, down. */
  function Rank(d: Dir): nat {
    match d
    case Left => 0
    case Right => 1
    case Top => 2
    case Bottom => 3
  }

  /** ns lists neighbours of p by strictly increasing rank of the side they lie on. */
  predicate InCarvingOrder(p: Pos, ns: seq<Pos>)
    requires forall q :: q in ns ==> Adjacent(p, q)
  {
    forall a, b :: 0 <= a < b < |ns| ==> Rank(Facing(p, ns[a])) < Rank(Facing(p, ns[b]))
  }

  /**
   * The neighbours carving may move to from p: the unvisited grid neighbours
   * of p, listed left, right, up, down.
   */
  function Candidates(g: Grid, p: Pos): seq<Pos>
    requires Wf(g) && p in g.at
  {
    var left, right := Pos(p.i - 1, p.j), Pos(p.i + 1, p.j);
    var up, down := Pos(p.i, p.j - 1), Pos(p.i, p.j + 1);
    (if p.i > 0 && !g.at[left].visited then [left] else []) +
    (if p.i < g.cols - 1 && !g.at[right].visited then [right] else []) +
    (if p.j > 0 && !g.at[up].visited then [up] else []) +
    (if p.j < g.rows - 1 && !g.at[down].visited then [down] else [])
  }

  /** The candidates are exactly the unvisited grid neighbours. */
  lemma CandidatesAreUnvisitedNeighbours(g: Grid, p: Pos)
    requires Wf(g) && p in g.at
    ensures forall q :: q in Candidates(g, p) <==> q in g.at && Adjacent(p, q) && !g.at[q].visited
  {
  }

  /** Carving lists the candidates left, right, up, down. */
  lemma CandidatesInOrder(g: Grid, p: Pos)
    requires Wf(g) && p in g.at
    ensures forall q :: q in Candidates(g, p) ==> Adjacent(p, q)
    ensures InCarvingOrder(p, Candidates(g, p))
  {
  }

  /** Every grid neighbour of p is visited. */
  predicate NeighboursVisited(g: Grid, p: Pos) {
    forall q :: q in g.at && Adjacent(p, q) ==> g.at[q].visited
  }

  // ----- Moves and reachability -----

  /** The solver may move from p to q: q is a neighbour in the grid and p's wall facing q is absent. */
  predicate Step(g: Grid, p: Pos, q: Pos) {
    p in g.at && q in g.at && Adjacent(p, q) && !g.at[p].Wall(Facing(p, q))
  }

  /** An open passage between p and q: neither has its wall facing the other. */
  predicate Passage(g: Grid, p: Pos, q: Pos) {
    Step(g, p, q) && Step(g, q, p)
  }

  predicate IsPath(g: Grid, path: seq<Pos>) {
    && |path| >= 1
    && path[0] in g.at
    && forall k :: 0 <= k < |path| - 1 ==> Step(g, path[k], path[k + 1])
  }

  /** b can be reached from a by a sequence of moves. */
  ghost predicate Reach(g: Grid, a: Pos, b: Pos) {
    exists path :: IsPath(g, path) && path[0] == a && path[|path| - 1] == b
  }

  lemma ReachRefl(g: Grid, a: Pos)
    requires a in g.at
    ensures Reach(g, a, a)
  {
    assert IsPath(g, [a]);
  }

  lemma ReachStep(g: Grid, a: Pos, b: Pos, c: Pos)
    requires Reach(g, a, b) && Step(g, b, c)
    ensures Reach(g, a, c)
  {
    var path :| IsPath(g, path) && path[0] == a && path[|path| - 1] == b;
    var longer := path + [c];
    assert IsPath(g, longer) by {
      forall k | 0 <= k < |longer| - 1
        ensures Step(g, longer[k], longer[k + 1])
      {
        if k < |path| - 1 {
          assert longer[k] == path[k] && longer[k + 1] == path[k + 1];
        }
      }
    }
  }

  // ----- Relations between two states of the grid -----

  /** g2 has the positions of g1 and has no wall that g1 lacks. */
  predicate WallsOnlyRemoved(g1: Grid, g2: Grid) {
    && g1.at.Keys == g2.at.Keys
    && forall p, d :: p in g1.at && p in g2.at && g2.at[p].Wall(d) ==> g1.at[p].Wall(d)
  }

  predicate SameWalls(g1: Grid, g2: Grid) {
    && g1.at.Keys == g2.at.Keys
    && forall p, d :: p in g1.at && p in g2.at ==> g2.at[p].Wall(d) == g1.at[p].Wall(d)
  }

  predicate VisitedOnlyGrows(g1: Grid, g2: Grid) {
    && g1.at.Keys == g2.at.Keys
    && forall p :: p in g1.at && p in g2.at && g1.at[p].visited ==> g2.at[p].visited
  }

  lemma WallsOnlyRemovedTrans(g1: Grid, g2: Grid, g3: Grid)
    requires WallsOnlyRemoved(g1, g2) && WallsOnlyRemoved(g2, g3)
    ensures WallsOnlyRemoved(g1, g3)
  {
  }

  lemma VisitedOnlyGrowsTrans(g1: Grid, g2: Grid, g3: Grid)
    requires VisitedOnlyGrows(g1, g2) && VisitedOnlyGrows(g2, g3)
    ensures VisitedOnlyGrows(g1, g3)
  {
  }

  /** Removing walls keeps every path a path. */
  lemma ReachWallsRemoved(g1: Grid, g2: Grid, a: Pos, b: Pos)
    requires WallsOnlyRemoved(g1, g2) && Reach(g1, a, b)
    ensures Reach(g2, a, b)
  {
    var path :| IsPath(g1, path) && path[0] == a && path[|path| - 1] == b;
    assert IsPath(g2, path) by {
      forall k | 0 <= k < |path| - 1
        ensures Step(g2, path[k], path[k + 1])
      {
        assert Step(g1, path[k], path[k + 1]);
      }
    }
  }

  /** Reachability depends on the walls only. */
  lemma ReachSameWalls(g1: Grid, g2: Grid, a: Pos, b: Pos)
    requires SameWalls(g1, g2)
    ensures Reach(g1, a, b) <==> Reach(g2, a, b)
  {
    if Reach(g1, a, b) {
      ReachWallsRemoved(g1, g2, a, b);
    }
    if Reach(g2, a, b) {
      ReachWallsRemoved(g2, g1, a, b);
    }
  }

  // ----- Closed sets -----

  /** No move of g leads out of s. */
  ghost predicate ClosedUnderSteps(g: Grid, s: set<Pos>) {
    forall p, q :: p in s && Step(g, p, q) ==> q in s
  }

  lemma {:induction false} PathStaysIn(g: Grid, s: set<Pos>, path: seq<Pos>, k: nat)
    requires ClosedUnderSteps(g, s) && IsPath(g, path) && path[0] in s && k < |path|
    ensures path[k] in s
  {
    if k > 0 {
      PathStaysIn(g, s, path, k - 1);
      assert Step(g, path[k - 1], path[k]);
    }
  }

  /** A set that no move leaves holds everything reachable from its members. */
  lemma ClosedHoldsReach(g: Grid, s: set<Pos>, a: Pos, b: Pos)
    requires ClosedUnderSteps(g, s) && a in s && Reach(g, a, b)
    ensures b in s
  {
    var path :| IsPath(g, path) && path[0] == a && path[|path| - 1] == b;
    PathStaysIn(g, s, path, |path| - 1);
  }

  /** s contains every grid neighbour of each of its members. */
  ghost predicate ClosedUnderAdjacency(cols: int, rows: int, s: set<Pos>) {
    forall p, q :: p in s && InBounds(cols, rows, q) && Adjacent(p, q) ==> q in s
  }

  lemma {:induction false} ColumnZeroCovered(cols: int, rows: int, s: set<Pos>, i: nat, j: int)
    requires ClosedUnderAdjacency(cols, rows, s) && Pos(i, j) in s && InBounds(cols, rows, Pos(i, j))
    ensures Pos(0, j) in s
  {
    if i > 0 {
      assert Adjacent(Pos(i, j), Pos(i - 1, j));
      ColumnZeroCovered(cols, rows, s, i - 1, j);
    }
  }

  lemma {:induction false} OriginCovered(cols: int, rows: int, s: set<Pos>, j: nat)
    requires ClosedUnderAdjacency(cols, rows, s) && Pos(0, j) in s && InBounds(cols, rows, Pos(0, j))
    ensures Pos(0, 0) in s
  {
    if j > 0 {
      assert Adjacent(Pos(0, j), Pos(0, j - 1));
      OriginCovered(cols, rows, s, j - 1);
    }
  }

  lemma {:induction false} TopRowCovered(cols: int, rows: int, s: set<Pos>, i: nat)
    requires ClosedUnderAdjacency(cols, rows, s) && Pos(0, 0) in s && i < cols && rows >= 1
    ensures Pos(i, 0) in s
  {
    if i > 0 {
      TopRowCovered(cols, rows, s, i - 1);
      assert Adjacent(Pos(i - 1, 0), Pos(i, 0));
    }
  }

  lemma {:induction false} CellCovered(cols: int, rows: int, s: set<Pos>, i: nat, j: nat)
    requires ClosedUnderAdjacency(cols, rows, s) && Pos(0, 0) in s && i < cols && j < rows
    ensures Pos(i, j) in s
  {
    if j == 0 {
      TopRowCovered(cols, rows, s, i);
    } else {
      CellCovered(cols, rows, s, i, j - 1);
      assert Adjacent(Pos(i, j - 1), Pos(i, j));
    }
  }

  /** A set closed under adjacency that holds some cell of the grid holds the whole grid. */
  lemma CoversGrid(cols: int, rows: int, s: set<Pos>, p: Pos)
    requires ClosedUnderAdjacency(cols, rows, s) && p in s && InBounds(cols, rows, p)
    ensures Positions(cols, rows) <= s
  {
    ColumnZeroCovered(cols, rows, s, p.i, p.j);
    OriginCovered(cols, rows, s, p.j);
    forall q | q in Positions(cols, rows)
      ensures q in s
    {
      CellCovered(cols, rows, s, q.i, q.j);
    }
  }

  // ----- Visited flags -----

  function Visited(g: Grid): set<Pos> {
    set p | p in g.at && g.at[p].visited
  }

  function Unvisited(g: Grid): set<Pos> {
    set p | p in g.at && !g.at[p].visited
  }

  /** The grid after the cell at p is marked visited. */
  function SetVisited(g: Grid, p: Pos): (r: Grid)
    requires p in g.at
    ensures r.cols == g.cols && r.rows == g.rows
    ensures SameWalls(g, r) && VisitedOnlyGrows(g, r)
    ensures p in r.at && r.at[p].visited
    ensures forall q :: q in g.at && q != p ==> r.at[q] == g.at[q]
  {
    g.(at := g.at[p := g.at[p].(visited := true)])
  }

  /** Marking p visited adds p to the visited cells and takes it from the unvisited ones. */
  lemma SetVisitedSets(g: Grid, p: Pos)
    requires p in g.at
    ensures Visited(SetVisited(g, p)) == Visited(g) + {p}
    ensures Unvisited(SetVisited(g, p)) == Unvisited(g) - {p}
    ensures g.at[p].visited ==> SetVisited(g, p) == g
  {
    var r := SetVisited(g, p);
    assert Visited(r) == Visited(g) + {p};
    assert Unvisited(r) == Unvisited(g) - {p};
  }

  /** The grid with every visited flag cleared. */
  function ClearVisited(g: Grid): Grid {
    g.(at := map p | p in g.at :: g.at[p].(visited := false))
  }

  /** Clearing the visited flags keeps the walls and leaves no cell visited. */
  lemma ClearVisitedEffect(g: Grid)
    ensures ClearVisited(g).cols == g.cols && ClearVisited(g).rows == g.rows
    ensures SameWalls(g, ClearVisited(g))
    ensures Visited(ClearVisited(g)) == {}
  {
    var r := ClearVisited(g);
    assert forall p, d :: p in g.at ==> r.at[p].Wall(d) == g.at[p].Wall(d);
  }

  /** Two grids with the same positions and the same visited flags visit the same cells. */
  lemma SameVisitedSets(g1: Grid, g2: Grid)
    requires g1.at.Keys == g2.at.Keys
    requires forall p :: p in g1.at && p in g2.at ==> g2.at[p].visited == g1.at[p].visited
    ensures Visited(g1) == Visited(g2) && Unvisited(g1) == Unvisited(g2)
  {
  }

  /** When a cell that was unvisited becomes visited and no flag is cleared, fewer cells are unvisited. */
  lemma UnvisitedDrops(g1: Grid, g2: Grid, p: Pos)
    requires VisitedOnlyGrows(g1, g2) && p in g1.at && !g1.at[p].visited && g2.at[p].visited
    ensures |Unvisited(g2)| < |Unvisited(g1)|
  {
    UnvisitedShrinks(g1, g2);
    var gone := Unvisited(g1) - Unvisited(g2);
    assert p in gone;
    assert Unvisited(g1) == Unvisited(g2) + gone && Unvisited(g2) !! gone;
    assert |gone| >= 1;
  }

  /** When visited flags only grow, the unvisited cells are a subset and no more numerous. */
  lemma UnvisitedShrinks(g1: Grid, g2: Grid)
    requires VisitedOnlyGrows(g1, g2)
    ensures Unvisited(g2) <= Unvisited(g1)
    ensures |Unvisited(g2)| <= |Unvisited(g1)|
  {
    assert Unvisited(g1) == Unvisited(g2) + (Unvisited(g1) - Unvisited(g2));
  }

  // ----- Wall changes -----

  /** The grid with the wall on side d of p removed. */
  function ClearWall(g: Grid, p: Pos, d: Dir): Grid
    requires p in g.at
  {
    g.(at := g.at[p := g.at[p].Without(d)])
  }

  /** Removing a wall keeps the positions and every visited flag and changes that one wall flag only. */
  lemma ClearWallEffect(g: Grid, p: Pos, d: Dir)
    requires p in g.at
    ensures ClearWall(g, p, d).cols == g.cols && ClearWall(g, p, d).rows == g.rows
    ensures ClearWall(g, p, d).at.Keys == g.at.Keys
    ensures !ClearWall(g, p, d).at[p].Wall(d)
    ensures forall x, e :: x in g.at && (x != p || e != d) ==> ClearWall(g, p, d).at[x].Wall(e) == g.at[x].Wall(e)
    ensures forall x :: x in g.at ==> ClearWall(g, p, d).at[x].visited == g.at[x].visited
  {
  }

  /** The grid with the shared wall of adjacent p and q removed on both sides. */
  function RemoveEdge(g: Grid, p: Pos, q: Pos): Grid
    requires p in g.at && q in g.at && Adjacent(p, q)
  {
    ClearWall(ClearWall(g, p, Facing(p, q)), q, Facing(q, p))
  }

  /**
   * Knocking down an edge opens a passage between its ends, removes exactly
   * the two facing wall flags and keeps every visited flag.
   */
  lemma RemoveEdgeEffect(g: Grid, p: Pos, q: Pos)
    requires p in g.at && q in g.at && Adjacent(p, q)
    ensures RemoveEdge(g, p, q).cols == g.cols && RemoveEdge(g, p, q).rows == g.rows
    ensures WallsOnlyRemoved(g, RemoveEdge(g, p, q)) && Passage(RemoveEdge(g, p, q), p, q)
    ensures forall x, d :: x in g.at && RemoveEdge(g, p, q).at[x].Wall(d) != g.at[x].Wall(d) ==>
              (x == p && d == Facing(p, q)) || (x == q && d == Facing(q, p))
    ensures forall x :: x in g.at ==> RemoveEdge(g, p, q).at[x].visited == g.at[x].visited
  {
    var g1 := ClearWall(g, p, Facing(p, q));
    ClearWallEffect(g, p, Facing(p, q));
    ClearWallEffect(g1, q, Facing(q, p));
  }

  /** The grid with the top-left cell's right wall and the bottom-right cell's left wall removed. */
  function OpenEntranceAndExit(g: Grid): Grid
    requires Wf(g) && g.cols >= 1 && g.rows >= 1
  {
    ClearWall(ClearWall(g, Pos(0, 0), Right), Last(g), Left)
  }

  /** Opening the maze removes those two wall flags, on that side only, and nothing else. */
  lemma OpenEntranceAndExitEffect(g: Grid)
    requires Wf(g) && g.cols >= 1 && g.rows >= 1
    ensures OpenEntranceAndExit(g).cols == g.cols && OpenEntranceAndExit(g).rows == g.rows
    ensures Wf(OpenEntranceAndExit(g))
    ensures !OpenEntranceAndExit(g).at[Pos(0, 0)].right && !OpenEntranceAndExit(g).at[Last(g)].left
    ensures WallsOnlyRemoved(g, OpenEntranceAndExit(g))
    ensures forall x, d :: x in g.at && OpenEntranceAndExit(g).at[x].Wall(d) != g.at[x].Wall(d) ==>
              (x == Pos(0, 0) && d == Right) || (x == Last(g) && d == Left)
    ensures forall x :: x in g.at ==> OpenEntranceAndExit(g).at[x].visited == g.at[x].visited
  {
    var g1 := ClearWall(g, Pos(0, 0), Right);
    ClearWallEffect(g, Pos(0, 0), Right);
    ClearWallEffect(g1, Last(g), Left);
  }
}
