/** Food placement: rejection sampling of random cells until one is off the snake.
    The random candidates are a parameter, `draws`, in the order the generator
    produced them; each is already a board cell (floor(random * COLS), floor(random * ROWS)). */
module Food {
  import opened Grid

  /** Some candidate is free, so the sampling loop stops within `draws`. */
  predicate HasFreeDraw(snake: seq<Cell>, draws: seq<Cell>) {
    exists i :: 0 <= i < |draws| && draws[i] !in snake
  }

  /** The loop can finish within `draws` and every candidate is on the board. */
  predicate CanPlace(b: Board, snake: seq<Cell>, draws: seq<Cell>) {
    AllInBounds(b, draws) && HasFreeDraw(snake, draws)
  }

  /** The number of candidates rejected before the loop stops. */
  function FirstFree(snake: seq<Cell>, draws: seq<Cell>): (i: nat)
    requires HasFreeDraw(snake, draws)
    ensures i < |draws| && draws[i] !in snake
    ensures forall j :: 0 <= j < i ==> draws[j] in snake
    decreases |draws|
  {
    if draws[0] !in snake then 0
    else
      assert HasFreeDraw(snake, draws[1..]) by {
        var k :| 0 <= k < |draws| && draws[k] !in snake;
        assert draws[1..][k - 1] == draws[k];
      }
      1 + FirstFree(snake, draws[1..])
  }

  /** The food cell: the first candidate not occupied by the snake. */
  function PlaceFood(b: Board, snake: seq<Cell>, draws: seq<Cell>): (food: Cell)
    requires CanPlace(b, snake, draws)
    ensures food !in snake
    ensures InBounds(b, food)
    ensures food in draws
  {
    draws[FirstFree(snake, draws)]
  }
}
