/**
 * The 5x5 LED grid as a torus: one step in a heading moves one axis by one
 * cell, and a coordinate that leaves the grid re-enters at the opposite edge.
 */
module Grid {

  import opened Heading

  const GRID_SIZE: int := 5

  /** A cell of the display, column `x` and row `y`; row 0 is the top. */
  datatype Cell = Cell(x: int, y: int)

  predicate InGrid(c: Cell) {
    0 <= c.x < GRID_SIZE && 0 <= c.y < GRID_SIZE
  }

  /** Brings a coordinate that stepped off the grid back to the opposite edge. */
  function Wrap(v: int): (r: int)
    ensures 0 <= r < GRID_SIZE
    ensures 0 <= v < GRID_SIZE ==> r == v
    ensures v == -1 ==> r == GRID_SIZE - 1
    ensures v == GRID_SIZE ==> r == 0
  {
    var low := if v < 0 then 4 else v;
    if low > 4 then 0 else low
  }

  /**
   * The cell one step from `c` in heading `dir`; any other `dir` leaves the
   * cell where it is, and both coordinates are then wrapped.
   */
  function NextPosition(c: Cell, dir: int): (r: Cell)
    ensures InGrid(r)
    ensures InGrid(c) && !IsHeading(dir) ==> r == c
  {
    var nx := if dir == RIGHT then c.x + 1 else if dir == LEFT then c.x - 1 else c.x;
    var ny := if dir == UP then c.y - 1 else if dir == DOWN then c.y + 1 else c.y;
    Cell(Wrap(nx), Wrap(ny))
  }

  /** Column displacement of a heading. */
  function DeltaX(dir: int): int {
    if dir == RIGHT then 1 else if dir == LEFT then -1 else 0
  }

  /** Row displacement of a heading. */
  function DeltaY(dir: int): int {
    if dir == DOWN then 1 else if dir == UP then -1 else 0
  }

  /** Reference definition of a step on the torus: displacement modulo the grid size. */
  function TorusStep(c: Cell, dir: int): Cell {
    Cell((c.x + DeltaX(dir)) % GRID_SIZE, (c.y + DeltaY(dir)) % GRID_SIZE)
  }

  /** On cells of the grid, NextPosition is the step modulo 5 on both axes. */
  lemma NextPositionIsTorusStep(c: Cell, dir: int)
    requires InGrid(c)
    ensures NextPosition(c, dir) == TorusStep(c, dir)
  {
    var r := NextPosition(c, dir);
    var t := TorusStep(c, dir);
    assert r.x == t.x by {
      if dir == RIGHT && c.x == 4 {
        assert (c.x + 1) % GRID_SIZE == 0;
      } else if dir == LEFT && c.x == 0 {
        assert (c.x - 1) % GRID_SIZE == 4;
      }
    }
    assert r.y == t.y by {
      if dir == DOWN && c.y == 4 {
        assert (c.y + 1) % GRID_SIZE == 0;
      } else if dir == UP && c.y == 0 {
        assert (c.y - 1) % GRID_SIZE == 4;
      }
    }
  }

  /** In a canonical heading exactly one coordinate changes. */
  lemma ExactlyOneAxisMoves(c: Cell, dir: int)
    requires InGrid(c) && IsHeading(dir)
    ensures var r := NextPosition(c, dir);
      (r.x != c.x) != (r.y != c.y)
    ensures var r := NextPosition(c, dir);
      dir == UP || dir == DOWN <==> r.x == c.x
  {
  }

  /** The four wrap laws at the edges of the grid. */
  lemma WrapLaws(v: int)
    requires 0 <= v < GRID_SIZE
    ensures NextPosition(Cell(0, v), LEFT) == Cell(4, v)
    ensures NextPosition(Cell(4, v), RIGHT) == Cell(0, v)
    ensures NextPosition(Cell(v, 0), UP) == Cell(v, 4)
    ensures NextPosition(Cell(v, 4), DOWN) == Cell(v, 0)
  {
  }

  /** Stepping back in the opposite heading undoes a step. */
  lemma StepThenOppositeStep(c: Cell, dir: int)
    requires InGrid(c) && IsHeading(dir)
    ensures NextPosition(NextPosition(c, dir), Opposite(dir)) == c
  {
  }
}
