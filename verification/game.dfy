/** The game session: the snake, its current and buffered direction, the food,
    the score, the run flag, the tick rate and the stored best score, with the
    tick (`Step`), `ResetState`, `Start`, `Pause` and `AdjustSpeed` transitions. */
module Game {
  import opened Options
  import opened Grid
  import opened BestScore
  import opened Food

  /** `snake[0]` is the head. `food` is None only before the first reset.
      `running` stands for the repeating timer being armed; `speed` is ticks
      per second. `best` is the parsed content of the storage slot. */
  datatype Game = Game(
    snake: seq<Cell>,
    dir: Vec,
    nextDir: Vec,
    food: Option<Cell>,
    score: nat,
    running: bool,
    speed: int,
    best: Option<int>)

  predicate Distinct(cells: seq<Cell>) {
    forall i, j :: 0 <= i < j < |cells| ==> cells[i] != cells[j]
  }

  /** The session invariant: a non-empty snake of distinct on-board cells,
      food on the board and off the snake, cardinal directions, and a
      buffered direction that does not reverse the current one. */
  predicate Valid(b: Board, g: Game): (ok: bool)
    ensures ok ==> |g.snake| > 0 && g.food.Some? && g.snake[0] != g.food.value
    ensures ok ==> g.dir.x * g.dir.x + g.dir.y * g.dir.y == 1
    ensures ok ==> g.nextDir.x * g.nextDir.x + g.nextDir.y * g.nextDir.y == 1
  {
    && |g.snake| >= 1
    && AllInBounds(b, g.snake)
    && Distinct(g.snake)
    && g.food.Some?
    && InBounds(b, g.food.value)
    && g.food.value !in g.snake
    && Cardinal(g.dir)
    && Cardinal(g.nextDir)
    && g.nextDir != Opposite(g.dir)
  }

  /** The state right after the script loads, before its first reset. */
  function Initial(speed: int, best: Option<int>): (r: Game)
    ensures |r.snake| == 0 && r.food.None? && r.score == 0 && !r.running
    ensures r.dir == Right && r.nextDir == Right
    ensures r.speed == speed && r.best == best
  {
    Game([], Right, Right, None, 0, false, speed, best)
  }

  /** A one-cell snake at the centre heading right, score 0, fresh food.
      The run flag, the tick rate and the stored best are left as they are. */
  function ResetState(b: Board, g: Game, draws: seq<Cell>): (r: Game)
    requires CanPlace(b, [Centre(b)], draws)
    ensures Valid(b, r)
    ensures r.snake == [Centre(b)] && r.score == 0
    ensures r.dir == Right && r.nextDir == Right
    ensures r.running == g.running && r.speed == g.speed && r.best == g.best
  {
    var snake := [Centre(b)];
    g.(snake := snake, dir := Right, nextDir := Right, score := 0,
       food := Some(PlaceFood(b, snake, draws)))
  }

  /** Where the head goes on the next tick, once the buffered direction is applied. */
  function Target(b: Board, g: Game): Cell
    requires |g.snake| > 0
  {
    NextHead(b, g.snake[0], g.nextDir)
  }

  predicate Collides(b: Board, g: Game)
    requires |g.snake| > 0
  {
    Target(b, g) in g.snake
  }

  predicate Eats(b: Board, g: Game)
    requires |g.snake| > 0
  {
    !Collides(b, g) && g.food == Some(Target(b, g))
  }

  /** What a tick needs from the random draws: a free cell for the new food
      when the snake eats (the grown snake is `[target] + snake`). */
  predicate StepReady(b: Board, g: Game, draws: seq<Cell>)
    requires |g.snake| > 0
  {
    Eats(b, g) ==> CanPlace(b, [Target(b, g)] + g.snake, draws)
  }

  /** One tick. The buffered direction becomes current; the head advances one
      cell with wrap-around; running into any current cell, the tail included,
      ends the run and saves the best; otherwise the head is prepended and the
      tail dropped, unless the head lands on the food, in which case the snake
      keeps its tail, the score goes up and new food is placed. */
  function Step(b: Board, g: Game, draws: seq<Cell>): (r: Game)
    requires |g.snake| > 0
    requires StepReady(b, g, draws)
    ensures r.dir == g.nextDir && r.nextDir == g.nextDir && r.speed == g.speed
    ensures Collides(b, g) ==>
              && !r.running
              && r.best == SaveBest(g.best, g.score)
              && r.snake == g.snake && r.score == g.score && r.food == g.food
    ensures !Collides(b, g) ==>
              && r.running == g.running && r.best == g.best
              && |r.snake| > 0 && r.snake[0] == Target(b, g)
    ensures Eats(b, g) ==>
              && r.snake == [Target(b, g)] + g.snake
              && r.score == g.score + 1
              && r.food.Some? && r.food.value !in r.snake
    ensures !Collides(b, g) && !Eats(b, g) ==>
              && r.snake == [Target(b, g)] + g.snake[..|g.snake| - 1]
              && r.score == g.score && r.food == g.food
  {
    var g1 := g.(dir := g.nextDir);
    var head := NextHead(b, g1.snake[0], g1.dir);
    if head in g1.snake then
      g1.(running := false, best := SaveBest(g1.best, g1.score))
    else
      var grown := [head] + g1.snake;
      if g1.food == Some(head) then
        g1.(snake := grown, score := g1.score + 1, food := Some(PlaceFood(b, grown, draws)))
      else
        g1.(snake := grown[..|grown| - 1])
  }

  /** A head that is not on the body, prepended to a body of distinct cells,
      gives distinct cells. */
  lemma {:induction false} PrependDistinct(h: Cell, s: seq<Cell>)
    requires Distinct(s)
    requires h !in s
    ensures Distinct([h] + s)
  {
    // Documents the index argument; the verifier also proves this unaided.
    var t := [h] + s;
    forall i, j | 0 <= i < j < |t|
      ensures t[i] != t[j]
    {
      assert t[j] == s[j - 1];
      if i == 0 {
        assert s[j - 1] in s;
      } else {
        assert t[i] == s[i - 1];
      }
    }
  }

  /** Prepending an on-board head that is not on the body keeps the snake
      on the board and its cells distinct. */
  lemma {:induction false} PrependKeepsSnake(b: Board, h: Cell, body: seq<Cell>)
    requires AllInBounds(b, body) && Distinct(body)
    requires InBounds(b, h) && h !in body
    ensures AllInBounds(b, [h] + body) && Distinct([h] + body)
  {
    PrependDistinct(h, body);
    var t := [h] + body;
    forall i | 0 < i < |t|
      ensures InBounds(b, t[i])
    {
      assert t[i] == body[i - 1];
    }
  }

  /** Dropping the tail keeps the remaining cells on the board, distinct,
      and among the old cells. */
  lemma DropTailKeepsSnake(b: Board, s: seq<Cell>)
    requires |s| > 0 && AllInBounds(b, s) && Distinct(s)
    ensures AllInBounds(b, s[..|s| - 1]) && Distinct(s[..|s| - 1])
    ensures forall c :: c in s[..|s| - 1] ==> c in s
  {
  }

  /** The session invariant survives every tick, whether the snake moves,
      grows or collides. */
  lemma StepPreservesValid(b: Board, g: Game, draws: seq<Cell>)
    requires Valid(b, g)
    requires StepReady(b, g, draws)
    ensures Valid(b, Step(b, g, draws))
  {
    var r := Step(b, g, draws);
    if !Collides(b, g) {
      var h := Target(b, g);
      NextHeadOnTorus(b, g.snake[0], g.nextDir);
      if Eats(b, g) {
        PrependKeepsSnake(b, h, g.snake);
      } else {
        var body := g.snake[..|g.snake| - 1];
        DropTailKeepsSnake(b, g.snake);
        PrependKeepsSnake(b, h, body);
        assert g.food.value !in r.snake;
      }
    }
  }

  /** A tick changes the length by exactly one (eating) or not at all, and
      never lowers the score. */
  lemma StepGrowsByOneOrNone(b: Board, g: Game, draws: seq<Cell>)
    requires |g.snake| > 0
    requires StepReady(b, g, draws)
    ensures var r := Step(b, g, draws);
            (|r.snake| == |g.snake| + 1 && r.score == g.score + 1 && Eats(b, g))
            || (|r.snake| == |g.snake| && r.score == g.score && !Eats(b, g))
  {
  }

  /** What Start needs from the draws: a reset is possible in case it happens. */
  predicate StartReady(b: Board, g: Game, draws: seq<Cell>) {
    !g.running && |g.snake| == 0 ==> CanPlace(b, [Centre(b)], draws)
  }

  /** Arms the timer. A no-op while running; a never-initialised session is
      reset first. */
  function Start(b: Board, g: Game, draws: seq<Cell>): (r: Game)
    requires StartReady(b, g, draws)
    ensures r.running
    ensures g.running ==> r == g
    ensures !g.running && |g.snake| > 0 ==> r == g.(running := true)
    ensures !g.running && |g.snake| == 0 ==> Valid(b, r) && r.score == 0 && r.best == g.best
    ensures !g.running && |g.snake| == 0 ==>
              r.snake == [Centre(b)] && r.dir == Right && r.nextDir == Right && r.speed == g.speed
    ensures |r.snake| > 0 || g.running
  {
    if g.running then g
    else
      var g1 := g.(running := true);
      if |g1.snake| == 0 then ResetState(b, g1, draws) else g1
  }

  /** Disarms the timer. A no-op while stopped; nothing but the flag changes. */
  function Pause(g: Game): (r: Game)
    ensures !r.running
    ensures r.(running := g.running) == g
  {
    if !g.running then g else g.(running := false)
  }

  /** Changes the tick rate; when running the timer is re-armed at the new
      rate, which leaves the game state and the run flag as they were. */
  function AdjustSpeed(g: Game, newSpeed: int): (r: Game)
    ensures r.speed == newSpeed
    ensures r.(speed := g.speed) == g
  {
    g.(speed := newSpeed)
  }

  /** Pausing undoes a start of a stopped, initialised session. */
  lemma PauseUndoesStart(b: Board, g: Game, draws: seq<Cell>)
    requires !g.running && |g.snake| > 0
    ensures Pause(Start(b, g, draws)) == g
  {
  }

  /** Starting again undoes a pause of a running session. */
  lemma StartUndoesPause(b: Board, g: Game, draws: seq<Cell>)
    requires g.running && |g.snake| > 0
    ensures Start(b, Pause(g), draws) == g
  {
  }

  /** Space bar and pause button: pause when running, otherwise start. */
  function Toggle(b: Board, g: Game, draws: seq<Cell>): (r: Game)
    requires StartReady(b, g, draws)
    ensures r.running == !g.running
    ensures |g.snake| > 0 ==> r == g.(running := !g.running)
  {
    if g.running then Pause(g) else Start(b, g, draws)
  }

  /** Reset button: pause, then reset. The session is left stopped and fresh. */
  function ResetButton(b: Board, g: Game, draws: seq<Cell>): (r: Game)
    requires CanPlace(b, [Centre(b)], draws)
    ensures Valid(b, r) && !r.running && r.score == 0 && |r.snake| == 1
    ensures r.snake == [Centre(b)] && r.dir == Right && r.nextDir == Right
    ensures r.best == g.best && r.speed == g.speed
  {
    ResetState(b, Pause(g), draws)
  }

  /** Every transition other than a tick keeps the session invariant. */
  lemma ControlsPreserveValid(b: Board, g: Game, draws: seq<Cell>, newSpeed: int)
    requires Valid(b, g)
    ensures Valid(b, Start(b, g, draws))
    ensures Valid(b, Pause(g))
    ensures Valid(b, Toggle(b, g, draws))
    ensures Valid(b, AdjustSpeed(g, newSpeed))
  {
  }
}
