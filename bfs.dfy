/**
 * The breadth-first search of _solve_bfs in maze.py, stated on grid values:
 * the entries its queue holds, the entries one pop appends, and the
 * invariant that makes its answer sound and, from a maze with no cell
 * visited, complete.
 */
module Bfs {
  import opened Grid

  /** A queue entry: the position to visit and the position it was reached from. */
  datatype Entry = Entry(pos: Pos, prev: Pos)

  const ORIGIN := Pos(0, 0)

  /**
   * The entries appended after visiting p: each neighbour q, taken left,
   * right, down, up, that lies in the grid, is unvisited, and that p's own
   * wall facing it does not block, paired with p.
   */
  function Expand(g: Grid, p: Pos): seq<Entry>
    requires Wf(g) && p in g.at
  {
    var left := Offer([], g, p, Pos(p.i - 1, p.j), p.i - 1 >= 0, g.at[p].left);
    var right := Offer(left, g, p, Pos(p.i + 1, p.j), p.i + 1 < g.cols, g.at[p].right);
    var down := Offer(right, g, p, Pos(p.i, p.j + 1), p.j + 1 < g.rows, g.at[p].bottom);
    Offer(down, g, p, Pos(p.i, p.j - 1), p.j - 1 >= 0, g.at[p].top)
  }

  /** es with the entry for q, reached from p, appended when q is inside the grid, unvisited and p's wall facing it is absent. */
  function Offer(es: seq<Entry>, g: Grid, p: Pos, q: Pos, inside: bool, wall: bool): seq<Entry>
    requires inside ==> q in g.at
  {
    if inside && !g.at[q].visited && !wall then es + [Entry(q, p)] else es
  }

  /** Every entry of p's expansion is a move from p to an unvisited cell. */
  lemma ExpandSound(g: Grid, p: Pos)
    requires Wf(g) && p in g.at
    ensures forall e :: e in Expand(g, p) ==> e.prev == p && Step(g, p, e.pos) && !g.at[e.pos].visited
  {
  }

  /** Every unvisited cell that p can move to is in p's expansion. */
  lemma ExpandComplete(g: Grid, p: Pos, q: Pos)
    requires Wf(g) && p in g.at && Step(g, p, q) && !g.at[q].visited
    ensures Entry(q, p) in Expand(g, p)
  {
    var es := Expand(g, p);
    if q == Pos(p.i - 1, p.j) {
      assert es[0] == Entry(q, p);
    } else if q == Pos(p.i + 1, p.j) {
      assert Facing(p, q) == Right;
    } else if q == Pos(p.i, p.j + 1) {
      assert Facing(p, q) == Bottom;
    } else {
      assert Facing(p, q) == Top;
    }
  }

  /** The positions the queue holds. */
  function Queued(queue: seq<Entry>): (s: set<Pos>)
    ensures forall k :: 0 <= k < |queue| ==> queue[k].pos in s
    ensures forall p :: p in s ==> exists k :: 0 <= k < |queue| && queue[k].pos == p
  {
    set k | 0 <= k < |queue| :: queue[k].pos
  }

  /** The number of entries of the queue whose position is visited. */
  function CountVisited(g: Grid, queue: seq<Entry>): (n: nat)
    ensures n <= |queue|
  {
    if queue == [] then 0
    else (if queue[0].pos in g.at && g.at[queue[0].pos].visited then 1 else 0) + CountVisited(g, queue[1..])
  }

  lemma {:induction false} CountVisitedConcat(g: Grid, a: seq<Entry>, b: seq<Entry>)
    ensures CountVisited(g, a + b) == CountVisited(g, a) + CountVisited(g, b)
  {
    if a != [] {
      assert (a + b)[1..] == a[1..] + b;
      CountVisitedConcat(g, a[1..], b);
    } else {
      assert a + b == b;
    }
  }

  /** No entry of `es` has a visited position. */
  lemma {:induction false} CountVisitedNone(g: Grid, es: seq<Entry>)
    requires forall e :: e in es ==> e.pos in g.at && !g.at[e.pos].visited
    ensures CountVisited(g, es) == 0
  {
    if es != [] {
      assert es[0] in es;
      assert forall e :: e in es[1..] ==> e in es;
      CountVisitedNone(g, es[1..]);
    }
  }

  /**
   * The invariant of the search loop, from the grid g0 at the start to the
   * current grid g: walls unchanged and visited flags only set; every queued
   * entry lies in the grid and its position is reachable from the origin, as
   * is every newly visited cell. When no cell was visited at the start,
   * also: the last cell is not visited, the origin is visited or queued, and
   * every move out of a visited cell leads to a visited or queued one.
   */
  ghost predicate Searching(g0: Grid, g: Grid, queue: seq<Entry>, cleared: bool) {
    && Wf(g0) && g.cols == g0.cols && g.rows == g0.rows
    && SameWalls(g0, g) && VisitedOnlyGrows(g0, g)
    && (forall k :: 0 <= k < |queue| ==>
          queue[k].pos in g.at && queue[k].prev in g.at && Reach(g0, ORIGIN, queue[k].pos))
    && (forall p :: p in g.at && g.at[p].visited && !g0.at[p].visited ==> Reach(g0, ORIGIN, p))
    && (cleared ==> Visited(g0) == {} && Closed(g0, g, queue))
  }

  /** The last cell is not visited, the origin is visited or queued, and every move out of a visited cell leads to a visited or queued one. */
  ghost predicate Closed(g0: Grid, g: Grid, queue: seq<Entry>) {
    && Last(g0) !in Visited(g)
    && (ORIGIN in Visited(g) || ORIGIN in Queued(queue))
    && forall p, q :: p in Visited(g) && Step(g0, p, q) ==> q in Visited(g) || q in Queued(queue)
  }

  /** Before the first pop: the queue holds the origin alone. */
  lemma SearchStart(g0: Grid, cleared: bool)
    requires Wf(g0) && ORIGIN in g0.at
    requires cleared ==> Visited(g0) == {}
    ensures Searching(g0, g0, [Entry(ORIGIN, ORIGIN)], cleared)
  {
    ReachRefl(g0, ORIGIN);
    assert ORIGIN in Queued([Entry(ORIGIN, ORIGIN)]);
  }

  /** When the queue runs empty from a grid with no cell visited, the last cell cannot be reached from the origin. */
  lemma SearchExhausted(g0: Grid, g: Grid)
    requires Searching(g0, g, [], true)
    ensures !Reach(g0, ORIGIN, Last(g0))
  {
    var s := Visited(g);
    assert Queued([]) == {};
    assert ClosedUnderSteps(g0, s);
    if Reach(g0, ORIGIN, Last(g0)) {
      ClosedHoldsReach(g0, s, ORIGIN, Last(g0));
    }
  }

  /** Popping the head and marking its cell visited keeps the walls, and every newly visited cell is reachable from the origin. */
  lemma PopSound(g0: Grid, g: Grid, queue: seq<Entry>, cleared: bool)
    requires Searching(g0, g, queue, cleared) && |queue| > 0
    ensures queue[0].pos in g.at && Reach(g0, ORIGIN, queue[0].pos)
    ensures var g1 := SetVisited(g, queue[0].pos);
      && SameWalls(g0, g1) && VisitedOnlyGrows(g0, g1)
      && forall p :: p in Visited(g1) - Visited(g0) ==> Reach(g0, ORIGIN, p)
  {
    SetVisitedSets(g, queue[0].pos);
  }

  /**
   * One turn of the loop that does not return: pop the head, mark its cell
   * visited and append its expansion. The invariant holds again, and fewer
   * cells are unvisited or, when the head was already visited, fewer queued
   * entries are visited.
   */
  lemma SearchStep(g0: Grid, g: Grid, queue: seq<Entry>, cleared: bool)
    requires Searching(g0, g, queue, cleared) && |queue| > 0 && queue[0].pos != Last(g0)
    ensures queue[0].pos in g.at
    ensures var g1 := SetVisited(g, queue[0].pos);
      var queue1 := queue[1..] + Expand(g1, queue[0].pos);
      && Searching(g0, g1, queue1, cleared)
      && (|Unvisited(g1)| < |Unvisited(g)| ||
          (|Unvisited(g1)| == |Unvisited(g)| && CountVisited(g1, queue1) < CountVisited(g, queue)))
  {
    var p := queue[0].pos;
    var g1 := SetVisited(g, p);
    var ex := Expand(g1, p);
    var queue1 := queue[1..] + ex;
    SetVisitedSets(g, p);
    StepSound(g0, g, g1, queue, ex);
    if cleared {
      StepComplete(g0, g, g1, queue, ex);
    }
    if g.at[p].visited {
      ExpandSound(g1, p);
      CountVisitedConcat(g1, queue[1..], ex);
      CountVisitedNone(g1, ex);
    } else {
      assert Unvisited(g1) < Unvisited(g);
    }
  }

  lemma StepSound(g0: Grid, g: Grid, g1: Grid, queue: seq<Entry>, ex: seq<Entry>)
    requires Searching(g0, g, queue, false) && |queue| > 0
    requires g1 == SetVisited(g, queue[0].pos) && ex == Expand(g1, queue[0].pos)
    ensures Searching(g0, g1, queue[1..] + ex, false)
  {
    var p := queue[0].pos;
    var queue1 := queue[1..] + ex;
    ExpandSound(g1, p);
    assert Reach(g0, ORIGIN, p);
    forall k | 0 <= k < |queue1|
      ensures queue1[k].pos in g1.at && queue1[k].prev in g1.at && Reach(g0, ORIGIN, queue1[k].pos)
    {
      if k < |queue| - 1 {
        assert queue1[k] == queue[k + 1];
      } else {
        var e := queue1[k];
        assert e == ex[k - (|queue| - 1)];
        assert e in ex;
        assert Step(g0, p, e.pos) by {
          assert Step(g1, p, e.pos);
        }
        ReachStep(g0, ORIGIN, p, e.pos);
      }
    }
  }

  lemma StepComplete(g0: Grid, g: Grid, g1: Grid, queue: seq<Entry>, ex: seq<Entry>)
    requires Searching(g0, g, queue, true) && |queue| > 0 && queue[0].pos != Last(g0)
    requires g1 == SetVisited(g, queue[0].pos) && ex == Expand(g1, queue[0].pos)
    ensures Closed(g0, g1, queue[1..] + ex)
  {
    var p := queue[0].pos;
    var queue1 := queue[1..] + ex;
    SetVisitedSets(g, p);
    QueuedAfterPop(queue, ex);
    forall a, b | a in Visited(g1) && Step(g0, a, b)
      ensures b in Visited(g1) || b in Queued(queue1)
    {
      if a == p && b !in Visited(g1) {
        ExpansionQueued(g0, g1, queue, ex, b);
      }
    }
  }

  /** Popping the head and appending keeps every queued position other than the head's queued. */
  lemma QueuedAfterPop(queue: seq<Entry>, ex: seq<Entry>)
    requires |queue| > 0
    ensures Queued(queue) <= Queued(queue[1..] + ex) + {queue[0].pos}
    ensures forall e :: e in ex ==> e.pos in Queued(queue[1..] + ex)
  {
    var queue1 := queue[1..] + ex;
    forall q | q in Queued(queue)
      ensures q in Queued(queue1) + {queue[0].pos}
    {
      var k :| 0 <= k < |queue| && queue[k].pos == q;
      if k > 0 {
        assert queue1[k - 1] == queue[k];
      }
    }
    forall e | e in ex
      ensures e.pos in Queued(queue1)
    {
      var k :| 0 <= k < |ex| && ex[k] == e;
      assert queue1[|queue| - 1 + k] == e;
    }
  }

  /** An unvisited cell the popped cell can move to is queued after the pop. */
  lemma ExpansionQueued(g0: Grid, g1: Grid, queue: seq<Entry>, ex: seq<Entry>, b: Pos)
    requires Wf(g1) && |queue| > 0 && queue[0].pos in g1.at && ex == Expand(g1, queue[0].pos)
    requires SameWalls(g0, g1) && Step(g0, queue[0].pos, b) && b !in Visited(g1)
    requires forall e :: e in ex ==> e.pos in Queued(queue[1..] + ex)
    ensures b in Queued(queue[1..] + ex)
  {
    var p := queue[0].pos;
    assert Step(g1, p, b);
    ExpandComplete(g1, p, b);
  }
}
