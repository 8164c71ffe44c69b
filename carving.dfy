/**
 * What randomized depth-first carving (_break_walls_r in maze.py) achieves,
 * stated on grid values: the invariant of its loop, the step that one
 * recursive call contributes, and the spanning tree the top-level call leaves.
 */
module Carving {
  import opened Grid

  /** A knocked-down wall, as the pair of cells it separated. */
  type Edge = (Pos, Pos)

  // ----- Connection through knocked-down walls -----

  /** Each consecutive pair of path is joined by an edge of c, in either direction. */
  predicate IsTrail(c: seq<Edge>, path: seq<Pos>) {
    && |path| >= 1
    && forall k :: 0 <= k < |path| - 1 ==> (path[k], path[k + 1]) in c || (path[k + 1], path[k]) in c
  }

  /** b can be reached from a through the edges of c. */
  ghost predicate Linked(c: seq<Edge>, a: Pos, b: Pos) {
    exists path :: IsTrail(c, path) && path[0] == a && path[|path| - 1] == b
  }

  lemma LinkedRefl(c: seq<Edge>, a: Pos)
    ensures Linked(c, a, a)
  {
    assert IsTrail(c, [a]);
  }

  lemma LinkedTrans(c: seq<Edge>, a: Pos, b: Pos, d: Pos)
    requires Linked(c, a, b) && Linked(c, b, d)
    ensures Linked(c, a, d)
  {
    var p1 :| IsTrail(c, p1) && p1[0] == a && p1[|p1| - 1] == b;
    var p2 :| IsTrail(c, p2) && p2[0] == b && p2[|p2| - 1] == d;
    var joined := p1 + p2[1..];
    assert IsTrail(c, joined) by {
      forall k | 0 <= k < |joined| - 1
        ensures (joined[k], joined[k + 1]) in c || (joined[k + 1], joined[k]) in c
      {
        if k < |p1| - 1 {
          assert joined[k] == p1[k] && joined[k + 1] == p1[k + 1];
        } else {
          var m := k - (|p1| - 1);
          assert joined[k] == p2[m] && joined[k + 1] == p2[m + 1];
        }
      }
    }
    assert joined[|joined| - 1] == d;
  }

  /** An edge of c links its two ends. */
  lemma LinkedEdge(c: seq<Edge>, a: Pos, b: Pos)
    requires (a, b) in c
    ensures Linked(c, a, b)
  {
    assert IsTrail(c, [a, b]);
  }

  /** Adding edges keeps every connection. */
  lemma LinkedGrows(c: seq<Edge>, c2: seq<Edge>, a: Pos, b: Pos)
    requires Linked(c, a, b) && forall e :: e in c ==> e in c2
    ensures Linked(c2, a, b)
  {
    var path :| IsTrail(c, path) && path[0] == a && path[|path| - 1] == b;
    assert IsTrail(c2, path);
  }

  /** When every edge of c is an open passage of g, a connection through c is a route of g. */
  lemma LinkedReach(g: Grid, c: seq<Edge>, a: Pos, b: Pos)
    requires a in g.at && Linked(c, a, b)
    requires forall e :: e in c ==> Passage(g, e.0, e.1)
    ensures Reach(g, a, b)
  {
    var path :| IsTrail(c, path) && path[0] == a && path[|path| - 1] == b;
    assert IsPath(g, path) by {
      forall k | 0 <= k < |path| - 1
        ensures Step(g, path[k], path[k + 1])
      {
        if (path[k], path[k + 1]) in c {
          assert Passage(g, path[k], path[k + 1]);
        } else {
          assert Passage(g, path[k + 1], path[k]);
        }
      }
    }
  }

  /**
   * Carving from p has taken g0 to g and appended c to c0 so far: walls were
   * only removed and visited flags only set; p is visited; every other newly
   * visited cell has no unvisited neighbour left; every newly visited cell can
   * be reached from p through the edges of c; each appended edge is an open passage; and one edge was
   * appended per newly visited cell other than p; and every wall flag that
   * was cleared is a facing side of one of the appended edges.
   */
  ghost predicate CarvedSoFar(g0: Grid, g: Grid, p: Pos, c0: seq<Edge>, c: seq<Edge>) {
    && WallsOnlyRemoved(g0, g) && VisitedOnlyGrows(g0, g)
    && p in g.at && g.at[p].visited
    && (forall q :: q in g.at && g.at[q].visited && !g0.at[q].visited && q != p ==> NeighboursVisited(g, q))
    && (forall q :: q in g.at && g.at[q].visited && !g0.at[q].visited ==> Linked(c, p, q))
    && |c0| <= |c| && c[..|c0|] == c0
    && (forall k :: |c0| <= k < |c| ==> Passage(g, c[k].0, c[k].1))
    && |c| - |c0| == |Visited(g)| - |Visited(g0)| - (if g0.at[p].visited then 0 else 1)
    && ClearedOnlyBy(g0, g, c, |c0|)
  }

  /** Side d of x is one of the two sides that face each other across the edge e. */
  predicate EdgeSide(e: Edge, x: Pos, d: Dir) {
    && Adjacent(e.0, e.1)
    && ((x == e.0 && d == Facing(e.0, e.1)) || (x == e.1 && d == Facing(e.1, e.0)))
  }

  /** Every wall flag g0 has and g lacks is a side of an edge c[k] with lo <= k. */
  ghost predicate ClearedOnlyBy(g0: Grid, g: Grid, c: seq<Edge>, lo: nat) {
    forall x, d :: x in g0.at && x in g.at && g0.at[x].Wall(d) && !g.at[x].Wall(d) ==>
      exists k :: lo <= k < |c| && EdgeSide(c[k], x, d)
  }

  /** Carving from p is complete: CarvedSoFar, and p has no unvisited neighbour left. */
  ghost predicate Carved(g0: Grid, g: Grid, p: Pos, c0: seq<Edge>, c: seq<Edge>) {
    CarvedSoFar(g0, g, p, c0, c) && NeighboursVisited(g, p)
  }

  /** Marking p visited starts carving from p. */
  lemma CarveStart(g0: Grid, p: Pos, c0: seq<Edge>)
    requires p in g0.at
    ensures CarvedSoFar(g0, SetVisited(g0, p), p, c0, c0)
  {
    var g := SetVisited(g0, p);
    SetVisitedSets(g0, p);
    LinkedRefl(c0, p);
    assert c0[..|c0|] == c0;
  }

  /** When p has no candidate left, carving from p is complete. */
  lemma CarveEnd(g0: Grid, g: Grid, p: Pos, c0: seq<Edge>, c: seq<Edge>)
    requires Wf(g) && CarvedSoFar(g0, g, p, c0, c) && Candidates(g, p) == []
    ensures Carved(g0, g, p, c0, c)
  {
    CandidatesAreUnvisitedNeighbours(g, p);
  }

  /** While carving from p, fewer cells are unvisited than in g0, or as many when p was already visited in g0. */
  lemma CarveMeasure(g0: Grid, g: Grid, p: Pos, c0: seq<Edge>, c: seq<Edge>)
    requires CarvedSoFar(g0, g, p, c0, c)
    ensures |Unvisited(g)| + (if g0.at[p].visited then 0 else 1) <= |Unvisited(g0)|
  {
    UnvisitedShrinks(g0, g);
    if !g0.at[p].visited {
      UnvisitedDrops(g0, g, p);
    }
  }

  /**
   * A candidate of p is an unvisited grid neighbour, and knocking down the
   * edge to it leaves the unvisited cells as they were.
   */
  lemma CandidateEdge(g: Grid, p: Pos, next: Pos)
    requires Wf(g) && p in g.at && next in Candidates(g, p)
    ensures CandidatesAreAdjacent(g, p, next) && InBounds(g.cols, g.rows, next)
    ensures !RemoveEdge(g, p, next).at[next].visited
    ensures Unvisited(RemoveEdge(g, p, next)) == Unvisited(g)
  {
    CandidatesAreUnvisitedNeighbours(g, p);
    RemoveEdgeEffect(g, p, next);
    SameVisitedSets(g, RemoveEdge(g, p, next));
  }

  /** A candidate is a grid neighbour, so an edge to it can be knocked down. */
  predicate CandidatesAreAdjacent(g: Grid, p: Pos, next: Pos) {
    p in g.at && next in g.at && Adjacent(p, next)
  }

  /**
   * One turn of the loop: after knocking down the edge to a candidate and
   * carving completely from it, carving from p has progressed.
   */
  lemma CarveStep(g0: Grid, g: Grid, p: Pos, c0: seq<Edge>, c: seq<Edge>, next: Pos, g2: Grid, c2: seq<Edge>)
    requires Wf(g) && CarvedSoFar(g0, g, p, c0, c) && next in Candidates(g, p)
    requires CandidatesAreAdjacent(g, p, next)
    requires Carved(RemoveEdge(g, p, next), g2, next, c + [(p, next)], c2)
    ensures CarvedSoFar(g0, g2, p, c0, c2)
    ensures |Unvisited(g2)| < |Unvisited(g)|
  {
    CandidatesAreUnvisitedNeighbours(g, p);
    var gk := RemoveEdge(g, p, next);
    RemoveEdgeEffect(g, p, next);
    SameVisitedSets(g, gk);
    WallsOnlyRemovedTrans(g0, g, gk);
    WallsOnlyRemovedTrans(g0, gk, g2);
    WallsOnlyRemovedTrans(g, gk, g2);
    VisitedOnlyGrowsTrans(g0, g, g2);
    VisitedOnlyGrowsTrans(g, gk, g2);
    UnvisitedDrops(g, g2, next);
    StepReach(g0, g, gk, g2, p, next, c, c2);
    StepNeighbours(g0, g, gk, g2, p, next);
    StepPassages(g, g2, p, next, c0, c, c2);
    StepCleared(g0, g, gk, g2, p, next, c0, c, c2);
  }

  /** The wall flags cleared since g0 are sides of the edges appended since c0. */
  lemma StepCleared(g0: Grid, g: Grid, gk: Grid, g2: Grid, p: Pos, next: Pos, c0: seq<Edge>, c: seq<Edge>, c2: seq<Edge>)
    requires p in g.at && next in g.at && Adjacent(p, next) && gk == RemoveEdge(g, p, next)
    requires g0.at.Keys == g.at.Keys == g2.at.Keys
    requires WallsOnlyRemoved(g0, g) && WallsOnlyRemoved(gk, g2)
    requires |c0| <= |c| && ClearedOnlyBy(g0, g, c, |c0|)
    requires |c| + 1 <= |c2| && c2[..|c| + 1] == c + [(p, next)]
    requires ClearedOnlyBy(gk, g2, c2, |c| + 1)
    ensures ClearedOnlyBy(g0, g2, c2, |c0|)
  {
    RemoveEdgeEffect(g, p, next);
    forall x, d | x in g0.at && x in g2.at && g0.at[x].Wall(d) && !g2.at[x].Wall(d)
      ensures exists k :: |c0| <= k < |c2| && EdgeSide(c2[k], x, d)
    {
      if !g.at[x].Wall(d) {
        var k :| |c0| <= k < |c| && EdgeSide(c[k], x, d);
        assert c2[k] == c2[..|c| + 1][k] == c[k];
      } else if !gk.at[x].Wall(d) {
        assert c2[|c|] == c2[..|c| + 1][|c|] == (p, next);
        assert EdgeSide(c2[|c|], x, d);
      } else {
        var k :| |c| + 1 <= k < |c2| && EdgeSide(c2[k], x, d);
      }
    }
  }

  /** Every cell newly visited since g0 stays linked to p. */
  lemma StepReach(g0: Grid, g: Grid, gk: Grid, g2: Grid, p: Pos, next: Pos, c: seq<Edge>, c2: seq<Edge>)
    requires g0.at.Keys == g.at.Keys == gk.at.Keys == g2.at.Keys
    requires forall q :: q in gk.at ==> gk.at[q].visited == g.at[q].visited
    requires |c| + 1 <= |c2| && c2[..|c| + 1] == c + [(p, next)]
    requires forall q :: q in g.at && g.at[q].visited && !g0.at[q].visited ==> Linked(c, p, q)
    requires forall q :: q in g2.at && g2.at[q].visited && !gk.at[q].visited ==> Linked(c2, next, q)
    ensures forall q :: q in g2.at && g2.at[q].visited && !g0.at[q].visited ==> Linked(c2, p, q)
  {
    assert forall e :: e in c ==> e in c2 by {
      forall e | e in c
        ensures e in c2
      {
        var k :| 0 <= k < |c| && c[k] == e;
        assert c2[k] == c2[..|c| + 1][k];
      }
    }
    assert c2[|c|] == c2[..|c| + 1][|c|];
    LinkedEdge(c2, p, next);
    forall q | q in g2.at && g2.at[q].visited && !g0.at[q].visited
      ensures Linked(c2, p, q)
    {
      if g.at[q].visited {
        LinkedGrows(c, c2, p, q);
      } else {
        LinkedTrans(c2, p, next, q);
      }
    }
  }

  /** Every cell other than p newly visited since g0 has no unvisited neighbour left. */
  lemma StepNeighbours(g0: Grid, g: Grid, gk: Grid, g2: Grid, p: Pos, next: Pos)
    requires g0.at.Keys == g.at.Keys == gk.at.Keys == g2.at.Keys
    requires VisitedOnlyGrows(g, g2) && NeighboursVisited(g2, next)
    requires forall q :: q in gk.at ==> gk.at[q].visited == g.at[q].visited
    requires gk.at.Keys == g.at.Keys
    requires forall q :: q in g.at && g.at[q].visited && !g0.at[q].visited && q != p ==> NeighboursVisited(g, q)
    requires forall q :: q in g2.at && g2.at[q].visited && !gk.at[q].visited && q != next ==> NeighboursVisited(g2, q)
    ensures forall q :: q in g2.at && g2.at[q].visited && !g0.at[q].visited && q != p ==> NeighboursVisited(g2, q)
  {
    forall q | q in g2.at && g2.at[q].visited && !g0.at[q].visited && q != p
      ensures NeighboursVisited(g2, q)
    {
      if g.at[q].visited {
        assert NeighboursVisited(g, q);
      }
    }
  }

  /** The edges appended since c0 are open passages of g2. */
  lemma StepPassages(g: Grid, g2: Grid, p: Pos, next: Pos, c0: seq<Edge>, c: seq<Edge>, c2: seq<Edge>)
    requires WallsOnlyRemoved(g, g2) && Passage(g2, p, next)
    requires |c0| <= |c| && c[..|c0|] == c0
    requires forall k :: |c0| <= k < |c| ==> Passage(g, c[k].0, c[k].1)
    requires |c| + 1 <= |c2| && c2[..|c| + 1] == c + [(p, next)]
    requires forall k :: |c| + 1 <= k < |c2| ==> Passage(g2, c2[k].0, c2[k].1)
    ensures c2[..|c0|] == c0
    ensures forall k :: |c0| <= k < |c2| ==> Passage(g2, c2[k].0, c2[k].1)
  {
    assert c2[..|c0|] == c2[..|c| + 1][..|c0|];
    forall k | |c0| <= k < |c2|
      ensures Passage(g2, c2[k].0, c2[k].1)
    {
      if k < |c| {
        assert c2[k] == c2[..|c| + 1][k] == c[k];
        assert Passage(g, c[k].0, c[k].1);
      } else if k == |c| {
        assert c2[k] == c2[..|c| + 1][k] == (p, next);
      }
    }
  }

  /**
   * Carving from the top-left cell of a grid in which no cell is visited
   * visits every cell and knocks down one edge fewer than there are cells,
   * each an open passage, which link every cell to the top-left one: the
   * knocked-down edges form a spanning tree of the grid.
   */
  lemma CarvedEverything(g0: Grid, g: Grid, c: seq<Edge>)
    requires Wf(g0) && g0.cols >= 1 && g0.rows >= 1 && Visited(g0) == {}
    requires Carved(g0, g, Pos(0, 0), [], c)
    ensures WallsOnlyRemoved(g0, g)
    ensures Visited(g) == g.at.Keys
    ensures |c| == g0.cols * g0.rows - 1
    ensures forall q :: q in g.at ==> Linked(c, Pos(0, 0), q)
    ensures forall e :: e in c ==> Passage(g, e.0, e.1)
  {
    CarvedVisitsAll(g0, g, c);
    assert |Visited(g0)| == 0 && Pos(0, 0) !in Visited(g0);
    forall q | q in g.at
      ensures Linked(c, Pos(0, 0), q)
    {
      assert q in Visited(g) && q !in Visited(g0);
    }
    forall e | e in c
      ensures Passage(g, e.0, e.1)
    {
      var k :| 0 <= k < |c| && c[k] == e;
    }
  }

  /** The visited cells after carving from the top-left cell are closed under adjacency, so they are all the cells. */
  lemma CarvedVisitsAll(g0: Grid, g: Grid, c: seq<Edge>)
    requires Wf(g0) && g0.cols >= 1 && g0.rows >= 1 && Visited(g0) == {}
    requires Carved(g0, g, Pos(0, 0), [], c)
    ensures Visited(g) == g.at.Keys
    ensures |Visited(g)| == g0.cols * g0.rows
  {
    var s := Visited(g);
    assert g.at.Keys == g0.at.Keys;
    forall p, q | p in s && InBounds(g0.cols, g0.rows, q) && Adjacent(p, q)
      ensures q in s
    {
      assert p !in Visited(g0);
      assert NeighboursVisited(g, p);
    }
    assert Pos(0, 0) in s;
    CoversGrid(g0.cols, g0.rows, s, Pos(0, 0));
    PositionsCount(g0.cols, g0.rows);
    assert s == Positions(g0.cols, g0.rows);
  }

  /** What carving and then clearing the visited flags keep of the opened grid: the entrance, the exit and every passage. */
  lemma Opened(g1: Grid, g2: Grid, g3: Grid)
    requires Wf(g1) && g1.cols >= 1 && g1.rows >= 1
    requires !g1.at[Pos(0, 0)].right && !g1.at[Last(g1)].left
    requires WallsOnlyRemoved(g1, g2) && SameWalls(g2, g3)
    requires g3.cols == g1.cols && g3.rows == g1.rows
    ensures !g3.at[Pos(0, 0)].right && !g3.at[Last(g3)].left
    ensures forall p, q :: Passage(g2, p, q) ==> Passage(g3, p, q)
  {
    assert !g2.at[Pos(0, 0)].Wall(Right) && !g2.at[Last(g1)].Wall(Left);
    assert !g3.at[Pos(0, 0)].Wall(Right) && !g3.at[Last(g1)].Wall(Left);
    forall p, q | Passage(g2, p, q)
      ensures Passage(g3, p, q)
    {
      assert g2.at[p].Wall(Facing(p, q)) == g3.at[p].Wall(Facing(p, q));
      assert g2.at[q].Wall(Facing(q, p)) == g3.at[q].Wall(Facing(q, p));
    }
  }

  /**
   * The four phases of building a maze, on grid values: a new grid, opened,
   * carved from the top-left cell, and cleared of visited flags. The result
   * has no cell visited, the entrance and exit open, and one carved passage
   * fewer than there are cells, which link every cell to the top-left one, so
   * every cell is reachable from it.
   */
  lemma Built(cols: nat, rows: nat, g1: Grid, g2: Grid, g3: Grid, c: seq<Edge>)
    requires cols >= 1 && rows >= 1
    requires g1 == OpenEntranceAndExit(NewGrid(cols, rows))
    requires Carved(g1, g2, Pos(0, 0), [], c) && g2.cols == cols && g2.rows == rows
    requires g3 == ClearVisited(g2)
    ensures Visited(g3) == {}
    ensures !g3.at[Pos(0, 0)].right && !g3.at[Last(g3)].left
    ensures |c| == cols * rows - 1
    ensures forall e :: e in c ==> Passage(g3, e.0, e.1)
    ensures forall p :: InBounds(cols, rows, p) ==> Linked(c, Pos(0, 0), p)
    ensures forall p :: InBounds(cols, rows, p) ==> Reach(g3, Pos(0, 0), p)
    ensures forall x, d :: x in g3.at ==> (!g3.at[x].Wall(d) <==> OpenSide(g3, c, x, d))
  {
    NewGridOpened(cols, rows);
    CarvedEverything(g1, g2, c);
    ClearVisitedEffect(g2);
    Opened(g1, g2, g3);
    BuiltWalls(cols, rows, g1, g2, g3, c);
    forall p | InBounds(cols, rows, p)
      ensures Reach(g3, Pos(0, 0), p)
    {
      LinkedReach(g3, c, Pos(0, 0), p);
    }
  }

  /** Side d of x is open in a built maze: the entrance, the exit, or a side of a carved edge. */
  ghost predicate OpenSide(g: Grid, c: seq<Edge>, x: Pos, d: Dir) {
    || (x == Pos(0, 0) && d == Right)
    || (x == Last(g) && d == Left)
    || exists k :: 0 <= k < |c| && EdgeSide(c[k], x, d)
  }

  /** After carving and the visited reset, a wall flag is down exactly when it is the entrance, the exit or a side of a carved edge. */
  lemma BuiltWalls(cols: nat, rows: nat, g1: Grid, g2: Grid, g3: Grid, c: seq<Edge>)
    requires cols >= 1 && rows >= 1
    requires g1 == OpenEntranceAndExit(NewGrid(cols, rows))
    requires WallsOnlyRemoved(g1, g2) && ClearedOnlyBy(g1, g2, c, 0) && SameWalls(g2, g3)
    requires g3.cols == cols && g3.rows == rows
    requires forall e :: e in c ==> Passage(g3, e.0, e.1)
    ensures forall x, d :: x in g3.at ==> (!g3.at[x].Wall(d) <==> OpenSide(g3, c, x, d))
  {
    forall x, d | x in g3.at
      ensures !g3.at[x].Wall(d) <==> OpenSide(g3, c, x, d)
    {
      if !g3.at[x].Wall(d) {
        DownIsOpen(cols, rows, g1, g2, g3, c, x, d);
      }
      if OpenSide(g3, c, x, d) {
        OpenIsDown(g1, g2, g3, c, x, d);
      }
    }
  }

  /** A wall flag down after building is the entrance, the exit or a side of a carved edge. */
  lemma DownIsOpen(cols: nat, rows: nat, g1: Grid, g2: Grid, g3: Grid, c: seq<Edge>, x: Pos, d: Dir)
    requires cols >= 1 && rows >= 1
    requires g1 == OpenEntranceAndExit(NewGrid(cols, rows))
    requires WallsOnlyRemoved(g1, g2) && ClearedOnlyBy(g1, g2, c, 0) && SameWalls(g2, g3)
    requires g3.cols == cols && g3.rows == rows
    requires x in g3.at && !g3.at[x].Wall(d)
    ensures OpenSide(g3, c, x, d)
  {
    var g0 := NewGrid(cols, rows);
    OpenEntranceAndExitEffect(g0);
    assert !g2.at[x].Wall(d);
    if g1.at[x].Wall(d) {
      var k :| 0 <= k < |c| && EdgeSide(c[k], x, d);
    } else {
      assert g0.at[x].Wall(d);
    }
  }

  /** The entrance, the exit and both sides of every carved edge are down after building. */
  lemma OpenIsDown(g1: Grid, g2: Grid, g3: Grid, c: seq<Edge>, x: Pos, d: Dir)
    requires Wf(g1) && g1.cols >= 1 && g1.rows >= 1
    requires !g1.at[Pos(0, 0)].right && !g1.at[Last(g1)].left
    requires WallsOnlyRemoved(g1, g2) && SameWalls(g2, g3)
    requires g3.cols == g1.cols && g3.rows == g1.rows
    requires forall e :: e in c ==> Passage(g3, e.0, e.1)
    requires x in g3.at && OpenSide(g3, c, x, d)
    ensures !g3.at[x].Wall(d)
  {
    if (x == Pos(0, 0) && d == Right) || (x == Last(g3) && d == Left) {
      assert !g1.at[x].Wall(d) && !g2.at[x].Wall(d);
    } else {
      var k :| 0 <= k < |c| && EdgeSide(c[k], x, d);
      assert c[k] in c;
      assert Passage(g3, c[k].0, c[k].1);
    }
  }

  /** A new grid, opened: well formed, no cell visited, the entrance and exit open. */
  lemma NewGridOpened(cols: nat, rows: nat)
    requires cols >= 1 && rows >= 1
    ensures var g1 := OpenEntranceAndExit(NewGrid(cols, rows));
      && Wf(g1) && g1.cols == cols && g1.rows == rows && Visited(g1) == {}
      && !g1.at[Pos(0, 0)].right && !g1.at[Last(g1)].left
  {
    var g0 := NewGrid(cols, rows);
    assert Visited(g0) == {} by {
      forall p | p in g0.at
        ensures !g0.at[p].visited
      {
      }
    }
    OpenEntranceAndExitEffect(g0);
    SameVisitedSets(g0, OpenEntranceAndExit(g0));
  }
}
