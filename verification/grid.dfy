/** The playing field: a COLS x ROWS board of cells with toroidal movement,
    and the four unit direction vectors the snake can travel in. */
module Grid {

  /** A board position; in bounds when 0 <= x < cols and 0 <= y < rows. */
  datatype Cell = Cell(x: int, y: int)

  /** A movement vector, added to the head once per tick. */
  datatype Vec = Vec(x: int, y: int)

  datatype Dims = Dims(cols: int, rows: int)

  /** The board size, fixed at start-up from the canvas size; both sides are positive. */
  type Board = d: Dims | d.cols > 0 && d.rows > 0 witness Dims(1, 1)

  const Up: Vec := Vec(0, -1)
  const Down: Vec := Vec(0, 1)
  const Left: Vec := Vec(-1, 0)
  const Right: Vec := Vec(1, 0)

  predicate Cardinal(v: Vec) {
    v == Up || v == Down || v == Left || v == Right
  }

  function Opposite(v: Vec): Vec {
    Vec(-v.x, -v.y)
  }

  predicate InBounds(b: Board, c: Cell) {
    0 <= c.x < b.cols && 0 <= c.y < b.rows
  }

  predicate AllInBounds(b: Board, cells: seq<Cell>) {
    forall i :: 0 <= i < |cells| ==> InBounds(b, cells[i])
  }

  /** The cell a fresh snake starts on: floor(COLS/2), floor(ROWS/2). */
  function Centre(b: Board): (c: Cell)
    ensures InBounds(b, c)
  {
    Cell(b.cols / 2, b.rows / 2)
  }

  /** One axis of the wrap-around: a coordinate below zero becomes n - 1,
      then one at or beyond n becomes 0. Two successive tests, not a modulo. */
  function WrapAxis(v: int, n: int): (r: int)
    requires n > 0
    ensures 0 <= v < n ==> r == v
    ensures v < 0 ==> r == n - 1
    ensures v >= n ==> r == 0
  {
    var a := if v < 0 then n - 1 else v;
    if a >= n then 0 else a
  }

  /** The cell the head moves to: head + d, wrapped on both axes. */
  function NextHead(b: Board, head: Cell, d: Vec): (h: Cell)
    ensures InBounds(b, head) && Cardinal(d) ==> InBounds(b, h)
    ensures InBounds(b, Cell(head.x + d.x, head.y + d.y)) ==> h == Cell(head.x + d.x, head.y + d.y)
  {
    Cell(WrapAxis(head.x + d.x, b.cols), WrapAxis(head.y + d.y, b.rows))
  }

  /** For a one-cell move from an in-range coordinate, the two tests agree
      with reduction modulo n, so they always land back in [0, n). */
  lemma WrapAxisIsModulo(v: int, d: int, n: int)
    requires 0 <= v < n
    requires -1 <= d <= 1
    ensures WrapAxis(v + d, n) == (v + d) % n
    ensures 0 <= WrapAxis(v + d, n) < n
  {
    // The case split records the argument for the reader; the verifier
    // finds it unaided.
    if v + d < 0 {
      assert v + d == -1;
      assert (-1) % n == n - 1 by {
        assert -1 == (-1) * n + (n - 1);
      }
    } else if v + d >= n {
      assert v + d == n;
    }
  }

  /** The head stays on the board: moving a cardinal step from an in-bounds
      cell gives the toroidal neighbour, (x + dx) mod COLS, (y + dy) mod ROWS. */
  lemma NextHeadOnTorus(b: Board, head: Cell, d: Vec)
    requires InBounds(b, head)
    requires Cardinal(d)
    ensures NextHead(b, head, d) == Cell((head.x + d.x) % b.cols, (head.y + d.y) % b.rows)
    ensures InBounds(b, NextHead(b, head, d))
  {
    // One axis at a time; the calls document the argument and are not needed by the verifier.
    WrapAxisIsModulo(head.x, d.x, b.cols);
    WrapAxisIsModulo(head.y, d.y, b.rows);
  }

  /** Leaving the right edge re-enters at the left edge of the same row. */
  lemma RightEdgeWraps(b: Board, y: int)
    requires 0 <= y < b.rows
    ensures NextHead(b, Cell(b.cols - 1, y), Right) == Cell(0, y)
  {
  }
}
