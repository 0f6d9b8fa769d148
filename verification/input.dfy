/** Keyboard and swipe input. Both only write the buffered direction, and
    only when the requested direction is not the reverse of the current one;
    the space bar also toggles the run. */
module Input {
  import opened Options
  import opened Grid
  import opened Food
  import opened Game

  /** The direction a key asks for: the arrow keys and lower-case w, s, a, d. */
  function KeyDirection(key: string): Option<Vec> {
    if key == "ArrowUp" || key == "w" then Some(Up)
    else if key == "ArrowDown" || key == "s" then Some(Down)
    else if key == "ArrowLeft" || key == "a" then Some(Left)
    else if key == "ArrowRight" || key == "d" then Some(Right)
    else None
  }

  /** The reversal guard applied to a request `want`, in terms of vectors:
      the request is taken unless it is the exact opposite of `dir`. */
  function Guarded(dir: Vec, buffered: Vec, want: Option<Vec>): Vec {
    match want
    case None => buffered
    case Some(v) => if v == Opposite(dir) then buffered else v
  }

  /** The keydown handler: four successive guarded tests, each written on one
      component of the current direction, then the space-bar toggle. */
  function KeyDown(b: Board, g: Game, key: string, draws: seq<Cell>): (r: Game)
    requires key == " " ==> StartReady(b, g, draws)
    ensures Cardinal(g.dir) && (key != " " || |g.snake| > 0) ==>
              r.nextDir == Guarded(g.dir, g.nextDir, KeyDirection(key))
    ensures key != " " ==> r == g.(nextDir := r.nextDir)
    ensures key == " " ==> r.running == !g.running
    ensures key == " " && |g.snake| > 0 ==> r == g.(running := !g.running)
  {
    var n1 := if (key == "ArrowUp" || key == "w") && g.dir.y != 1 then Up else g.nextDir;
    var n2 := if (key == "ArrowDown" || key == "s") && g.dir.y != -1 then Down else n1;
    var n3 := if (key == "ArrowLeft" || key == "a") && g.dir.x != 1 then Left else n2;
    var n4 := if (key == "ArrowRight" || key == "d") && g.dir.x != -1 then Right else n3;
    var g1 := g.(nextDir := n4);
    if key == " " then Toggle(b, g1, draws) else g1
  }

  function Abs(n: int): int {
    if n < 0 then -n else n
  }

  /** The direction a swipe asks for: the longer axis decides, a tie counts as
      vertical, and a displacement of 20 px or less asks for nothing. */
  function SwipeDirection(dx: int, dy: int): Option<Vec> {
    if Abs(dx) > Abs(dy) then
      (if dx > 20 then Some(Right) else if dx < -20 then Some(Left) else None)
    else
      (if dy > 20 then Some(Down) else if dy < -20 then Some(Up) else None)
  }

  /** The touchend handler for a displacement (dx, dy) since touchstart. */
  function Swipe(g: Game, dx: int, dy: int): (r: Game)
    ensures Cardinal(g.dir) ==> r.nextDir == Guarded(g.dir, g.nextDir, SwipeDirection(dx, dy))
    ensures r == g.(nextDir := r.nextDir)
  {
    var nd :=
      if Abs(dx) > Abs(dy) then
        if dx > 20 && g.dir.x != -1 then Right
        else if dx < -20 && g.dir.x != 1 then Left
        else g.nextDir
      else
        if dy > 20 && g.dir.y != -1 then Down
        else if dy < -20 && g.dir.y != 1 then Up
        else g.nextDir;
    g.(nextDir := nd)
  }

  /** No reversal: every key press and swipe keeps the session invariant,
      in particular the buffered direction is never the reverse of the current one. */
  lemma InputPreservesValid(b: Board, g: Game, key: string, draws: seq<Cell>, dx: int, dy: int)
    requires Valid(b, g)
    ensures Valid(b, KeyDown(b, g, key, draws))
    ensures Valid(b, Swipe(g, dx, dy))
  {
  }

  /** Heading right, pressing left (arrow or a) changes nothing. */
  lemma ReverseKeyIgnored(b: Board, g: Game, draws: seq<Cell>)
    requires g.dir == Right
    ensures KeyDown(b, g, "ArrowLeft", draws) == g
    ensures KeyDown(b, g, "a", draws) == g
  {
  }
}
