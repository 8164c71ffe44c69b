/**
 * The cell record of window.py: four wall flags, a visited flag and the box
 * the cell was last drawn in. The window, points, lines and colours are
 * rendering and are not modelled; `DrawMove` returns the segment it would draw.
 */
module Window {
  import opened Wrappers
  import Grid

  /** The rectangle a cell was drawn in, corners (x1, y1) and (x2, y2). */
  datatype Box = Box(x1: int, y1: int, x2: int, y2: int)

  datatype Point = Point(x: int, y: int)

  datatype Line = Line(from: Point, to: Point)

  /** draw_move does arithmetic on the box corners; on a cell never drawn they are None. */
  datatype DrawError = BoxNotRecorded

  function Abs(x: int): int { if x < 0 then -x else x }

  /**
   * The centre coordinate draw_move computes from two corner coordinates:
   * `lo + |lo - hi| div 2` (floor division of a non-negative number).
   * For lo <= hi it is the lower midpoint of [lo, hi]; for hi < lo it is not
   * between the corners but at or beyond lo.
   */
  function Centre(lo: int, hi: int): (c: int)
    ensures lo <= hi ==> lo <= c <= hi && 0 <= (hi - c) - (c - lo) <= 1
    ensures hi < lo ==> lo <= c
  {
    lo + Abs(lo - hi) / 2
  }

  /** The centre of a box, as draw_move computes it for both ends of its line. */
  function BoxCentre(b: Box): (p: Point)
    ensures b.x1 <= b.x2 ==> b.x1 <= p.x <= b.x2
    ensures b.y1 <= b.y2 ==> b.y1 <= p.y <= b.y2
  {
    Point(Centre(b.x1, b.x2), Centre(b.y1, b.y2))
  }

  class Cell {
    var hasLeftWall: bool
    var hasRightWall: bool
    var hasTopWall: bool
    var hasBottomWall: bool
    var box: Option<Box>
    var visited: bool

    /** A new cell has all four walls, no recorded box, and is unvisited. */
    constructor ()
      ensures hasLeftWall && hasRightWall && hasTopWall && hasBottomWall
      ensures box == None && !visited
    {
      hasLeftWall := true;
      hasRightWall := true;
      hasTopWall := true;
      hasBottomWall := true;
      box := None;
      visited := false;
    }

    /** The flags of this cell as a value. */
    function State(): (s: Grid.CellState)
      reads this
      ensures s.left == hasLeftWall && s.right == hasRightWall
      ensures s.top == hasTopWall && s.bottom == hasBottomWall
      ensures s.visited == visited
    {
      Grid.CellState(hasLeftWall, hasRightWall, hasTopWall, hasBottomWall, visited)
    }

    /**
     * Records the box the cell is drawn in. Emitting the four wall segments
     * (black when present, white when absent) is rendering and is not modelled.
     */
    method Draw(x1: int, y1: int, x2: int, y2: int)
      modifies this
      ensures box == Some(Box(x1, y1, x2, y2))
      ensures State() == old(State())
    {
      box := Some(Box(x1, y1, x2, y2));
    }

    /**
     * The line from this cell's centre to `to`'s centre. It fails exactly when
     * either cell has no recorded box. The colour (`undo`) is rendering only.
     * It changes no cell: it has no modifies clause.
     */
    method DrawMove(to: Cell, undo: bool) returns (r: Result<Line, DrawError>)
      ensures r.Success? <==> box.Some? && to.box.Some?
      ensures r.Success? ==> r.value.from == BoxCentre(box.value) && r.value.to == BoxCentre(to.box.value)
      ensures r.Success? && box.value.x1 <= box.value.x2 ==> box.value.x1 <= r.value.from.x <= box.value.x2
      ensures r.Success? && box.value.y1 <= box.value.y2 ==> box.value.y1 <= r.value.from.y <= box.value.y2
    {
      if box.None? || to.box.None? {
        return Failure(BoxNotRecorded);
      }
      var b, t := box.value, to.box.value;
      var centreX, centreY := b.x1 + Abs(b.x1 - b.x2) / 2, b.y1 + Abs(b.y2 - b.y1) / 2;
      var toX, toY := t.x1 + Abs(t.x1 - t.x2) / 2, t.y1 + Abs(t.y2 - t.y1) / 2;
      r := Success(Line(Point(centreX, centreY), Point(toX, toY)));
    }
  }
}
