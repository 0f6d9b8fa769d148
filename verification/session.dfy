/** A whole browser session as a sequence of events dispatched one at a time:
    timer ticks, key presses, swipes and the three buttons and speed slider. */
module Session {
  import opened Options
  import opened Grid
  import opened BestScore
  import opened Food
  import opened Game
  import opened Input

  /** Events that place food (ticks, resets, starts) carry the random draws. */
  datatype Event =
    | Tick(draws: seq<Cell>)
    | KeyPress(key: string, draws: seq<Cell>)
    | TouchSwipe(dx: int, dy: int)
    | StartClick(draws: seq<Cell>)
    | PauseClick(draws: seq<Cell>)
    | ResetClick(draws: seq<Cell>)
    | SpeedInput(speed: int)

  /** The draws an event carries suffice for any food it places. */
  predicate Ready(b: Board, g: Game, e: Event)
    requires |g.snake| > 0
  {
    match e
    case Tick(draws) => StepReady(b, g, draws)
    case KeyPress(key, draws) => key == " " ==> StartReady(b, g, draws)
    case TouchSwipe(_, _) => true
    case StartClick(draws) => StartReady(b, g, draws)
    case PauseClick(draws) => StartReady(b, g, draws)
    case ResetClick(draws) => CanPlace(b, [Centre(b)], draws)
    case SpeedInput(_) => true
  }

  /** One event. A tick is only delivered while the timer is armed. */
  function Apply(b: Board, g: Game, e: Event): (r: Game)
    requires Valid(b, g)
    requires Ready(b, g, e)
    ensures Valid(b, r)
    ensures g.best.None? ==> r.best.None?
    ensures g.best.Some? ==> r.best.Some? && r.best.value >= g.best.value
  {
    match e
    case Tick(draws) =>
      StepPreservesValid(b, g, draws);
      if g.running then Step(b, g, draws) else g
    case KeyPress(key, draws) =>
      InputPreservesValid(b, g, key, draws, 0, 0);
      var r := KeyDown(b, g, key, draws);
      assert r.best == g.best;
      r
    case TouchSwipe(dx, dy) =>
      InputPreservesValid(b, g, "", [], dx, dy);
      Swipe(g, dx, dy)
    case StartClick(draws) =>
      ControlsPreserveValid(b, g, draws, 0);
      Start(b, g, draws)
    case PauseClick(draws) =>
      ControlsPreserveValid(b, g, draws, 0);
      Toggle(b, g, draws)
    case ResetClick(draws) => ResetButton(b, g, draws)
    case SpeedInput(speed) =>
      ControlsPreserveValid(b, g, [], speed);
      AdjustSpeed(g, speed)
  }

  /** Every event of the run finds its draws sufficient. */
  predicate RunReady(b: Board, g: Game, events: seq<Event>)
    requires Valid(b, g)
    decreases |events|
  {
    |events| == 0 || (Ready(b, g, events[0]) && RunReady(b, Apply(b, g, events[0]), events[1..]))
  }

  /** The state after dispatching `events` in order. The invariant holds in
      every reachable state, and the stored best never decreases: a number
      stays a number no smaller, a non-number stays untouched. */
  function Run(b: Board, g: Game, events: seq<Event>): (r: Game)
    requires Valid(b, g)
    requires RunReady(b, g, events)
    ensures Valid(b, r)
    ensures g.best.None? ==> r.best.None?
    ensures g.best.Some? ==> r.best.Some? && r.best.value >= g.best.value
    ensures Shown(r.best) >= Shown(g.best)
    decreases |events|
  {
    if |events| == 0 then g else Run(b, Apply(b, g, events[0]), events[1..])
  }

  /** Page load: the initial state followed by one reset. */
  function Load(b: Board, speed: int, stored: Option<int>, draws: seq<Cell>): (r: Game)
    requires CanPlace(b, [Centre(b)], draws)
    ensures Valid(b, r) && !r.running && r.score == 0 && r.snake == [Centre(b)]
    ensures r.best == stored
  {
    ResetState(b, Initial(speed, stored), draws)
  }
}
