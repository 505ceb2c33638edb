# Snake game engine, modelled in Dafny

This project models the engine of a browser snake game: a 30 x 30 board, a snake that moves one
cell per clock tick and wraps around the edges, food drawn at random from the empty cells, growth
on eating, game over when the head runs into the body, and the clock that drives the ticks
(slow, medium and fast modes; start, pause, resume and stop).

Modules:

- `Wrappers`: the `Option` type.
- `NumberText`: JavaScript's `String(n)` for integers, `split` and `parseInt` (the digit-prefix
  rule, with `None` for `NaN`). The engine names cells by `"x_y"` keys, and these functions let
  the model compare keys exactly as the source does.
- `Playground`: the pure part of the engine.
  - Cell values, positions and the board.
  - Position keys and the proof that they are injective.
  - The collision and eating tests.
  - Head movement with its wrap-around.
  - The tail-growth rule, as written.
  - The specification functions `Ground`, for the grid rebuild, and `FoodChoice`, for food
    placement.
- `SnakeGame`: the imperative part of the engine.
  - The in-place body shift.
  - The nested loops that rebuild the grid and that collect the empty cells, each proved against
    its specification function.
  - The `Game` class: playground, body, food and direction are fields, and `MoveSnake` is one tick.
- `GameTimer`: the `Timer` class, with the active flag, the start reference, the elapsed time and
  the number of scheduled callbacks.

Parameters stand in for the outside world:

- the current time is an `int` argument;
- each `Math.random()` draw is a `real` in `[0, 1)`;
- a scheduled timeout is one more in the `pending` count;
- the delayed end-of-game callback is the `endScheduled` flag.

The model keeps these behaviours of the code as written:

- The start grid marks `(14, 14)` as the head, but the body is `[(15, 15)]`. This is proved in
  `StartGroundMisplacesHead`: the first food can land on the real head, and the cell marked as the
  head is never chosen.
- A new segment grows off the old tail. It wraps for `Straight` and `Upward`. For `Backward` it
  adds `1 % 30`, i.e. 1, and for `Downward` likewise, with no wrap. At the right or bottom edge
  that segment lies off the board.
- After eating, the new food is drawn from the grid computed before the body grew. The second grid
  rebuild's result is thrown away. So the new food can land on the new tail, but never on a
  segment the grid showed (`Ate ==> food !in body[..|body| - 1]`).
- The grown segment is never drawn: the next shift drops it before any grid is built. What a
  running game keeps true is therefore a statement about the segments before the last, the
  predicate `WellFormed`: they are distinct, on the board and clear of the food. Every step that
  moves, or eats and places new food, keeps it, and the grid drawn by that step has one BODY cell per segment except the
  head (and except the new tail, after eating).
- The body is shifted even when the step ends the game.
- The clock's own quirks:
  - A pause leaves the already scheduled callback in place, and it still fires once more.
  - A stop clears the start reference and the elapsed time, but not the active flag.
  - Start and resume never cancel a callback scheduled earlier.

Where what the game evidently intends and what the code does differ, the model follows the code:

- Starting a new game neither clears the food nor resets the direction.
- The growth rule is the one above.
- On a full board, the source takes the first element of an empty list and throws. The model
  returns the outcome `BoardFull` instead, after the effects the source had already performed.

## Model

| member | source | states |
|---|---|---|
| NumberText.ParseIntOfDecimal | src/game/hook/useGame.ts:111-113 | parsing the decimal text of any integer, negative ones included, gives back that integer |
| Playground.KeyRoundTrip | src/game/hook/useGame.ts:111-113 | splitting a position's `x_y` key on `_` and parsing both parts gives back both coordinates |
| Playground.KeyInjective | src/game/hook/useGame.ts:56-58 | two positions have the same key if and only if they are the same position |
| Playground.KeySplits | src/game/hook/useGame.ts:56-58 | a position's `x_y` key splits on `_` into exactly two pieces, the decimal texts of its two coordinates |
| Playground.ParseKey | src/game/hook/useGame.ts:111-113 | splitting on `_` and parsing gives one parsed number per piece of the split, at least one; a text without `_` is parsed as a single number |
| Playground.StringifyPositions | src/game/hook/useGame.ts:56-58 | one key per segment, and a position's key is among them exactly when the position is a segment |
| Playground.GeneratePlayground | src/game/hook/useGame.ts:29-32 | the new grid is 30 x 30 and every cell is empty |
| Playground.IsGameOver | src/game/hook/useGame.ts:83-90 | game over holds exactly when some segment after the head sits on the head's cell |
| Playground.IsSnakeAteFood | src/game/hook/useGame.ts:92-99 | the snake has eaten exactly when its head is on the food |
| Playground.MoveHead | src/game/hook/useGame.ts:146-159 | a horizontal move keeps the row and a vertical move keeps the column; from a cell on the board the head lands on another cell on the board |
| Playground.MoveHeadWraps | src/game/hook/useGame.ts:146-159 | from a cell on the board the head moves one step in its direction, modulo the board size, and stays on the board |
| Playground.MoveHeadAtEdges | src/game/hook/useGame.ts:146-159 | leaving an edge in any of the four directions re-enters at the opposite edge |
| Playground.TailExtension | src/game/hook/useGame.ts:119-134 | the new segment shares the old tail's row for a horizontal direction and its column for a vertical one, and differs from a tail on the board |
| Playground.TailExtensionVersusMove | src/game/hook/useGame.ts:116-134 | the new segment lies one step opposite the horizontal direction and one step along the vertical direction; for `Backward`/`Downward` at the last column/row it lies off the board |
| Playground.CollisionAfterShift | src/game/hook/useGame.ts:161-167 | after the shift the game is over exactly when the new head is on a segment other than the old tail |
| Playground.ReversalCollides | src/game/hook/useGame.ts:161-167 | with three or more segments, turning back onto the neck ends the game |
| Playground.ReversalOfTwoSegments | src/game/hook/useGame.ts:161-167 | a two-segment snake turning back onto its neck swaps head and tail, and does not collide |
| Playground.GroundCellMeaning | src/game/hook/useGame.ts:60-81 | in the rebuilt grid a cell is food exactly at the food, head exactly at the head unless the food is there, body exactly at other segments, and empty otherwise |
| Playground.GroundCounts | src/game/hook/useGame.ts:60-81 | the rebuilt grid has one food cell exactly when the food is on the board, and one head cell exactly when the head is on the board and not under the food |
| Playground.GroundBodyCount | src/game/hook/useGame.ts:60-81 | when the segments after the head are distinct, on the board and clear of the food, the rebuilt grid has exactly one BODY cell per segment but the head |
| Playground.StepPreservesWellFormed | src/game/hook/useGame.ts:161-190 | a step without collision from a well-formed body draws one BODY cell per segment but the head, and leaves a well-formed body both when the head misses the food and when it eats and new food is placed |
| Playground.EmptyCellsMembership | src/game/hook/useGame.ts:101-107 | the collected cells are exactly the empty cells of the board |
| Playground.Pick | src/game/hook/useGame.ts:109 | the index is the floor of the draw times the count, and lies below the count |
| Playground.FoodChoiceIsEmptyCell | src/game/hook/useGame.ts:101-114 | a chosen food cell is on the board and empty; there is no choice exactly when no cell is empty |
| Playground.EmptyCellsDistinct | src/game/hook/useGame.ts:102-107 | the row-major list of empty cells holds each cell at most once |
| Playground.FoodChoiceReachesEveryEmptyCell | src/game/hook/useGame.ts:101-114 | every empty cell is chosen for some draw in [0, 1) |
| Playground.FoodChoiceUniform | src/game/hook/useGame.ts:101-114 | with `n` empty cells, the `k`-th listed is chosen exactly for the draws in `[k / n, (k + 1) / n)`, so each empty cell gets an equal share `1 / n` of the draws |
| SnakeGame.ShiftBody | src/game/hook/useGame.ts:41-54 | same length (one for an empty body), the new head first, and every other segment takes its predecessor's old place |
| SnakeGame.UpdateGround | src/game/hook/useGame.ts:60-81 | the loops build the grid `Ground` specifies, and give nothing exactly when the body collides with itself |
| SnakeGame.CollectRow | src/game/hook/useGame.ts:103-106 | the inner loop appends row `i`'s empty cells in column order, and the list of keys stays exactly the keys of the collected cells |
| SnakeGame.GenerateFood | src/game/hook/useGame.ts:101-114 | the loops and the parse of the drawn key give the cell `FoodChoice` specifies, which is an empty cell on the board |
| SnakeGame.StartGroundMisplacesHead | src/game/hook/useGame.ts:34-38 | on the start grid the real head `(15, 15)` is an empty cell that some draw chooses as food, and the marked cell `(14, 14)` is never chosen |
| SnakeGame.Game.constructor | src/game/hook/useGame.ts:20-27 | no playground, no body, no food, direction `Straight`, and an idle clock in medium mode; the empty body is well-formed |
| SnakeGame.Game.PlaceSnake | src/game/hook/useGame.ts:34-38 | the body becomes `[(15, 15)]`, and the grid is the input with `(14, 14)` set to head |
| SnakeGame.Game.StartGame | src/game/hook/useGame.ts:223-226 | the playground is an empty board except for the head mark at `(14, 14)`, the body is `[(15, 15)]` and well-formed, food and direction are kept, and the clock is started |
| SnakeGame.Game.OnKeyPress | src/game/hook/useGame.ts:206-221 | Numpad8, Numpad5, Numpad6 and Numpad4 set up, down, straight and back; any other key leaves the direction alone |
| SnakeGame.Game.IncreaseSnakeBody | src/game/hook/useGame.ts:116-136 | the body gains one segment at its end, placed by the growth rule from the old tail |
| SnakeGame.Game.EatFood | src/game/hook/useGame.ts:179-187 | the body grows; the food becomes the choice from the grid computed before the growth, which is an empty cell of that grid |
| SnakeGame.Game.EndGame | src/game/hook/useGame.ts:167-172 | the clock is stopped (active flag and pending callbacks untouched) and the end of the game is scheduled |
| SnakeGame.Game.Redraw | src/game/hook/useGame.ts:173-190 | without eating, the playground becomes the rebuilt grid; on eating, the body grows and the new food is chosen from that grid; a full board leaves the playground unchanged |
| SnakeGame.Game.PlaceFirstFood | src/game/hook/useGame.ts:140-142 | food already present is kept, missing food becomes the choice from the current grid, and the step goes on exactly when food is present afterwards |
| SnakeGame.Game.ShiftSnake | src/game/hook/useGame.ts:143-165 | the body becomes the shifted body behind the head moved one cell in the latched direction, with the same length and the head on the board |
| SnakeGame.Game.Advance | src/game/hook/useGame.ts:143-190 | with food present: a collision keeps the shifted body and stops the clock; otherwise a redraw, with its new body, food and playground; from a well-formed body a move or an eating step leaves a well-formed body and a grid with one BODY cell per segment but the head (but the head and new tail, after eating) |
| SnakeGame.Game.MoveSnake | src/game/hook/useGame.ts:138-191 | one tick: nothing before the start; otherwise place the first food if missing, shift the body, then end the game on a collision or redraw; for each outcome, the new body, food, playground and clock state, and on a move or an eating step the preservation of `WellFormed` and the BODY count |
| GameTimer.Timer.constructor | src/game/hook/useGameTimer.ts:12-16 | the clock starts inactive, with start reference and elapsed time at 0 and nothing scheduled, in the mode it is given (medium for the game) |
| GameTimer.TicksPerSecond | src/game/hook/useGameTimer.ts:3-7 | each mode's tick rate is positive |
| GameTimer.Intervals | src/game/hook/useGameTimer.ts:23 | the delay between firings is 200 ms (slow), 100 ms (medium) and 1000/30 ms (fast) |
| GameTimer.Timer.OnTimerUpdate | src/game/hook/useGameTimer.ts:18-31 | with a start reference, the elapsed time becomes now minus the start; one more callback is scheduled only while active |
| GameTimer.Timer.Fire | src/game/hook/useGameTimer.ts:18-31 | a firing consumes its callback and re-arms only while active |
| GameTimer.Timer.Start | src/game/hook/useGameTimer.ts:33-38 | active, start reference now, elapsed time 0, one more callback scheduled |
| GameTimer.Timer.Pause | src/game/hook/useGameTimer.ts:40-42 | only the active flag is cleared |
| GameTimer.Timer.Resume | src/game/hook/useGameTimer.ts:44-48 | active again, with the start reference moved so that the elapsed time carries on, and one more callback scheduled |
| GameTimer.Timer.Stop | src/game/hook/useGameTimer.ts:50-53 | start reference and elapsed time are reset; the active flag and the scheduled callbacks are left as they were |
| GameTimer.PauseGraceThenResume | src/game/hook/useGameTimer.ts:18-48 | after a pause the scheduled callback still fires once, refreshes the elapsed time and does not re-arm; a later resume continues from that time |
| GameTimer.FiringsAfterStop | src/game/hook/useGameTimer.ts:18-31 | after a stop, any number of firings leaves the elapsed time at 0 and the active flag as it was; a clock left active with a callback pending (as a collision leaves it) re-arms on every firing and so fires without end, while an inactive one fires only the callbacks already scheduled |

## Left out

- React state and effects (`useState`, `useRef`, `useEffect`) are left out. The state is kept in
  the fields of `Game` and `Timer`. The effect that runs `moveSnake` whenever the elapsed time
  changes is not modelled; a caller invokes `MoveSnake` directly.
- Stale closures over React state are not modelled either, so the model always sees the latest
  values.
- `setTimeout`, `clearTimeout` and `requestAnimationFrame` are reduced to the `pending` count. The
  callbacks' timing and order are not modelled.
- `Date.now()` and `Math.random()` become parameters. `Math.floor` of the elapsed time is the
  identity, because the times are integers.
- The two-second delay before `onEnd` is the `endScheduled` flag; `onEnd` itself is not modelled.
  Neither is the console message `GAME OVER` written on a collision, since it is console output
  only.
- `GameTimer.Intervals`: the delay is an exact rational, so floating-point rounding of
  `1000 / 30` is not modelled.
- The registration and removal of the keypress listener are not modelled; `OnKeyPress` takes the
  key code directly.
- `pauseGame`, `resumeGame` and `exitGame` only forward to the clock and set a UI flag, so they
  are covered by `Timer.Pause`, `Timer.Resume` and `Timer.Stop`. The `isGamePause` and `gameTime`
  UI state is not modelled.
- The `Playground` component and the page entry point are rendering only and are not part of this
  model.
- `NumberText.ParseInt` does not model `parseInt`'s leading whitespace, its `+` sign, or its
  reading of a leading `0x` as hexadecimal. The keys it parses never contain them.
- `NumberText.IntToDecimal` does not model the exponent notation `String(n)` uses from 1e21 on.
  Coordinates never come near that size.
- `Playground.GroundCounts`: it states no BODY count, because for an arbitrary body none holds:
  repeated or off-board segments, or food on a segment, change it. `Playground.GroundBodyCount`
  states the count for bodies whose segments after the head are distinct, on the board and clear
  of the food. `SnakeGame.Game.MoveSnake` proves that a step that moves, or that eats and places
  new food, keeps `WellFormed`: the segments before the last are distinct, on the board and clear
  of the food. It promises nothing of the kind for a `BoardFull` step after eating, where the food
  stays under a segment, nor after a `Collided` step, whose body is in general not `WellFormed`.
  So until the first collision or full board, every grid the game draws is built from a body
  shifted from a `WellFormed` one. The last segment itself is not covered: after eating it may
  repeat a segment, lie off the board or sit under the food.
- `SnakeGame.Game.MoveSnake`: on a full board the source throws a `TypeError`. The model returns
  `BoardFull` and keeps the effects already performed (the shifted and grown body), but does not
  model what the host does with the exception.
