# Cobrinha: a verified model of the snake game's logic

This project models the game logic of a browser snake game (`inicio.js`). The
snake moves on a COLS x ROWS board with wrap-around edges. One timer tick
applies the buffered direction, moves the head one cell, and either ends the
run on a self-collision or moves the snake, growing it when the head lands on
the food. Arrow keys, w/s/a/d and swipes only buffer a direction, and only when it
does not reverse the current one; the space bar starts or pauses the run. The best score is kept in one storage slot
and is only ever raised.

Modules, following the parts of the script:

- `Options`: the optional value used for the food (null before the first reset) and the parsed best score.
- `Grid`: cells, direction vectors, the board size and the wrap-around move.
- `BestScore`: `loadBest`/`saveBest` over the stored value.
- `Food`: `placeFood`'s rejection sampling over a given sequence of random candidates.
- `Game`: the session record, its invariant `Valid`, and `resetState`, `step`, `start`, `pause`, `adjustSpeed` and the two toggle/reset buttons.
- `Input`: the keydown and touchend handlers.
- `Session`: every event dispatched in sequence from page load, with the invariant and best-score monotonicity over whole runs.

The board size is a parameter `b: Board` with `cols > 0` and `rows > 0`. The
script derives it from the canvas size, which lives in the page markup. The
random numbers are a parameter too. `draws` is the sequence of candidate cells
that `Math.random` would produce, each already a board cell.

The session invariant `Game.Valid` says:

- the snake is non-empty, on the board, and made of distinct cells;
- the food is on the board and off the snake;
- both directions are unit vectors;
- the buffered direction is not the reverse of the current one.

Page load (`Session.Load`) establishes it. Every event keeps it
(`Session.Apply`), and so does every sequence of events (`Session.Run`).

Points of the code worth knowing:

- The wrap is two successive tests per axis, not a modulo: below zero becomes COLS-1, then at or beyond COLS becomes 0. `Grid.WrapAxisIsModulo` proves they agree with a modulo for one-cell moves.
- A non-numeric stored best is shown as 0 but never overwritten, since `score > NaN` is false (`BestScore.SaveBest`).
- The collision test looks at every current cell, including the tail that would be popped on a plain move. So moving into the cell the tail is leaving ends the game.
- `step` assigns `dir := nextDir` before the collision test, so the current direction changes even on the tick that ends the game.

## Model

| member | source | states |
|---|---|---|
| Grid.Centre | inicio.js:29 | The starting cell floor(COLS/2), floor(ROWS/2) is on the board. |
| Grid.WrapAxis | inicio.js:91-94 | One axis of the wrap: an in-range coordinate is kept, anything below zero becomes n-1, anything at or beyond n becomes 0. |
| Grid.NextHead | inicio.js:88-94 | The new head is head + dir, wrapped. From an in-bounds head with a unit direction it is on the board, and when head + dir is already on the board it is taken unchanged. |
| Grid.WrapAxisIsModulo | inicio.js:91-94 | For an in-range coordinate and a step of -1, 0 or 1, the two wrap tests equal reduction modulo the axis length, so the result is in [0, n). |
| Grid.NextHeadOnTorus | inicio.js:88-94 | From an in-bounds head, a cardinal move gives the toroidal neighbour ((x+dx) mod COLS, (y+dy) mod ROWS), which is on the board. |
| Grid.RightEdgeWraps | inicio.js:92 | A head at x = COLS-1 moving right re-enters at x = 0 in the same row. |
| BestScore.Shown | inicio.js:39-42 | loadBest shows the stored number, or 0 when the stored text is not a number. |
| BestScore.SaveBest | inicio.js:44-46 | A numeric stored best becomes the maximum of itself and the score. A non-numeric entry stays non-numeric. |
| BestScore.SaveBestNeverLowers | inicio.js:39-47 | The shown best never drops across a save. After a save it is at least the score, unless the entry is non-numeric, in which case it shows 0. |
| BestScore.SaveBestIdempotent | inicio.js:45-46 | Saving the same score a second time changes nothing. |
| Food.FirstFree | inicio.js:52-55 | The sampling loop stops at a candidate off the snake, and every candidate rejected before it is on the snake. |
| Food.PlaceFood | inicio.js:51-56 | The food is a board cell, is one of the candidates, and is not on the snake. |
| Game.Initial | inicio.js:17-24 | Before the first reset the snake is empty, there is no food, the score is 0, the run is stopped and both directions point right; speed and best come from the page. |
| Game.Valid | inicio.js:29 | The session invariant that resetState establishes (line 29) and every transition keeps: a non-empty snake of distinct board cells, food on the board and off the snake, unit directions, no reversal buffered. It implies that the head is not on the food and that both directions have length 1, so the snake never stands still. |
| Game.ResetState | inicio.js:28-34 | Gives a one-cell snake at the centre heading right with score 0 and valid food. The run flag, speed and best are unchanged, and the result satisfies the invariant. |
| Game.Step | inicio.js:86-117 | dir becomes nextDir. On a collision the run stops, the best is saved, and the snake, score and food are kept. Otherwise the new head is the wrapped target. Eating prepends it, adds 1 to the score and places food off the new snake. A plain move prepends it and drops the tail, keeping score and food. |
| Game.StepPreservesValid | inicio.js:86-117 | Every tick keeps the invariant. Cells stay distinct and on the board, food stays off the snake, and there is still no reversal. |
| Game.StepGrowsByOneOrNone | inicio.js:106-117 | A tick changes the length by exactly +1 with the score +1 when eating, and by 0 with the score unchanged otherwise. |
| Game.Start | inicio.js:123-129 | Afterwards the run flag is set. It is a no-op while running. A stopped initialised session only gets the flag set. An empty snake is reset first: a valid session whose snake is the centre cell, heading right, with score 0 and the old speed and best. |
| Game.Pause | inicio.js:131-135 | Afterwards the session is stopped, and nothing but the flag changes. |
| Game.AdjustSpeed | inicio.js:137-143 | Only the tick rate changes. The game state and the run flag are untouched. |
| Game.PauseUndoesStart | inicio.js:123-135 | Pausing right after starting a stopped, initialised session gives back the same session. |
| Game.StartUndoesPause | inicio.js:123-135 | Starting right after pausing a running session gives back the same session. |
| Game.Toggle | inicio.js:178 | The pause button flips the run flag. On an initialised session nothing else changes. |
| Game.ResetButton | inicio.js:179 | The reset button leaves a stopped, valid session: the snake is the centre cell alone, both directions point right, the score is 0, and best and speed are kept. |
| Game.ControlsPreserveValid | inicio.js:123-143 | Start, pause, toggle and speed changes keep the invariant. |
| Input.KeyDown | inicio.js:146-153 | On a unit current direction, the component tests amount to this: an arrow or w/s/a/d key sets nextDir to its direction unless that is the reverse of dir. Other keys change nothing. Space flips the run flag, and on an initialised session changes nothing else. |
| Input.Swipe | inicio.js:162-174 | The longer axis decides (a tie counts as vertical) and a move of 20 px or less is ignored. nextDir takes the swiped direction unless it reverses dir, and nothing else changes. |
| Input.InputPreservesValid | inicio.js:146-174 | No key press or swipe breaks the invariant. In particular nextDir never becomes the reverse of dir. |
| Input.ReverseKeyIgnored | inicio.js:150 | Heading right, the left arrow or `a` leaves the session unchanged. |
| Session.Load | inicio.js:17-24 | The initial values followed by the reset at load time (line 183) give a stopped, valid session with score 0 and the stored best. |
| Session.Apply | inicio.js:146-180 | Each event (tick while running, key, swipe, buttons, speed slider) keeps the invariant. A numeric best never drops, and a non-numeric one is never replaced. |
| Session.Run | inicio.js:176-183 | Over any sequence of events the invariant holds and the stored best never decreases. |

## Left out

- Rendering (`drawCell`, `draw`) and the label updates for score and best. They are presentation only; the best label's value is `BestScore.Shown`.
- Timers (`setInterval`, `clearInterval`) and the game-over `alert`. `running` stands for an armed timer, and a tick is one atomic `Step`, delivered only while running.
- The tick interval `Math.round(1000 / speed)`. It is floating-point arithmetic with no bearing on the game state. `speed` is kept as an integer field.
- `Math.random`: replaced by the `draws` parameter. Each draw is assumed to be a board cell already, which is what `Math.floor(Math.random() * COLS)` yields.
- Food.PlaceFood: requires a free candidate among the draws. On a full board the script's loop never ends, and the model does not describe that.
- localStorage text and `parseInt`. The slot is the parsed value `Option<int>`, and a missing key reads as `Some(0)` because of the `|| '0'`. Writing `String(score)` and parsing it again is taken to give back `score`.
- Game.Step: requires a non-empty snake. The script would throw on `snake[0]`, but only `start` arms the timer, and it resets an empty session first.
- Input.Swipe: displacements are integers. Touch coordinates are doubles in the browser, and only the comparisons against 20 px and between the axes matter.
- Event-listener registration and the touchstart capture of the start point. This is browser wiring; `Session.Event` lists the events it delivers.
- The commented-out speed ramp inside `step`. It is dead code.
- Upper-case `W`, `A`, `S`, `D` (for example with caps lock) are not direction keys in the script, and the model reproduces that.
