# Snake game simulation core in Dafny

This project models the simulation core of a single-player Android snake
game: the view model `SnakeGameViewModel`, which owns the current game
snapshot, edits its lifecycle state on Start/Pause/Reset events, and once
started runs a loop that waits a size-dependent delay and replaces the
snapshot by one tick of `updateGame`.

- `snake_state.dfy` (module `SnakeState`): the snapshot (`SnakeGameState`
  with `Coordinate`, `Direction`, `GameState`), the bounds test
  `IsWithinBounds`, and the snake invariant (non-empty, no duplicate
  segments, every segment inside the border).
- `snake_engine.dfy` (module `SnakeEngine`): the tick as pure functions.
  `NextHead` is the head offset exactly as written. `Advance` is the
  collision check and the move/grow step. `UpdateGame` is the whole tick.
  `TickDelay` is the speed-ramp table. `Ticks` and `Delays` give what the
  driver loop produces over several ticks. The lemmas state what these
  guarantee.
- `snake_view_model.dfy` (module `SnakeViewModel`): the view model as a
  class whose `state` field `OnEvent` and `GameLoop` overwrite, as the
  program overwrites its state flow.

The food generator (`SnakeGameState.generateRandomFoodCoordinate()`) is not
part of this model: each tick takes the coordinate it would return as an
argument, and nothing is assumed about it (it may lie on the snake). The
default snapshot `SnakeGameState()` is not part of this model either. The
view model takes the snapshot it starts from as a constructor argument. A
reset takes the snapshot constructed anew for that reset as an argument of
`OnEvent`, so two resets need not restore the same snapshot.

Where the code departs from conventional snake behaviour, the model follows
the code in `SnakeGameViewModel.kt`:
- Head movement: every direction decrements y, Up and Down coincide, and
  Left/Right move diagonally (see Findings).
- A direction event changes nothing. The handler at
  `SnakeGameViewModel.kt:44` is empty, so the direction is never changed
  after construction.
- `updateGame` itself does not look at `gameState`. Only the driver loop's
  guard stops ticking when the game is not started.
- The delay table sends a size of 0 to the `else` branch (100), so delays
  are non-increasing only from size 1 on. Every snapshot that keeps the
  snake invariant has size at least 1.

## Model

| member | source | states |
|---|---|---|
| SnakeState.IsWithinBounds | app/src/main/java/com/example/snakegame/SnakeGameViewModel.kt:99-106 | a playable cell lies on the grid, and a grid cell is playable exactly when it is not on the border row or column on either axis (border cells are walls) |
| SnakeEngine.NextHead | app/src/main/java/com/example/snakegame/SnakeGameViewModel.kt:58-74 | as written, every direction moves the head one row up (y - 1); Left shifts the column by -1, Right by +1, Up and Down not at all |
| SnakeEngine.Advance | app/src/main/java/com/example/snakegame/SnakeGameViewModel.kt:76-96 | whatever the new head, a step never changes direction, lifecycle state or grid sizes; if it ends a running game it changes nothing but the game-over flag; a non-empty snake stays non-empty |
| SnakeEngine.UpdateGame | app/src/main/java/com/example/snakegame/SnakeGameViewModel.kt:48-96 | a tick keeps direction, lifecycle state and grid sizes; returns its input when the game is already over; a tick that ends in game over leaves snake and food as they were; the snake grows by zero or one segment |
| SnakeEngine.CollisionEndsGame | app/src/main/java/com/example/snakegame/SnakeGameViewModel.kt:77-82 | a running game ends exactly when the new head is on any segment (the tail included) or outside the playable cells, and then the result is the input with only the game-over flag set |
| SnakeEngine.EatingGrowsByOne | app/src/main/java/com/example/snakegame/SnakeGameViewModel.kt:84-88 | when the new head is the food cell and the game goes on, the new snake is the food cell followed by the whole old snake (length + 1) and the food becomes the generated cell |
| SnakeEngine.MovingKeepsLength | app/src/main/java/com/example/snakegame/SnakeGameViewModel.kt:85-94 | when the new head is not the food and the game goes on, the new snake is the new head followed by the old snake without its tail; length and food are unchanged |
| SnakeEngine.GameOverIsFixedPoint | app/src/main/java/com/example/snakegame/SnakeGameViewModel.kt:49-51 | once a tick has ended the game, every further tick returns that same snapshot, whatever the generator offers |
| SnakeEngine.AdvancePreservesInvariant | app/src/main/java/com/example/snakegame/SnakeGameViewModel.kt:77-96 | for any new head, a step keeps the snake non-empty, duplicate-free and inside the walls |
| SnakeEngine.UpdateGamePreservesInvariant | app/src/main/java/com/example/snakegame/SnakeGameViewModel.kt:48-96 | a tick keeps the snake invariant, whether or not it ends the game |
| SnakeEngine.FoodStaysClear | app/src/main/java/com/example/snakegame/SnakeGameViewModel.kt:84-96 | food off the snake stays off it after a tick that does not eat it; after eating, the new food is off the snake exactly when the generated cell is off the old snake and is not the eaten cell |
| SnakeEngine.NoOverflowUnderInvariant | app/src/main/java/com/example/snakegame/SnakeGameViewModel.kt:53-79 | for a snapshot keeping the invariant on Int-sized grids, the head offset and the `gridSize - 1` bounds stay within 32-bit Int, so unbounded integers model the Int arithmetic exactly |
| SnakeEngine.TickDelay | app/src/main/java/com/example/snakegame/SnakeGameViewModel.kt:28-32 | the delay is one of 100, 110, 120; it is 120 exactly for sizes 1 to 5 and 110 exactly for sizes 6 to 10, so 100 for every other size (0 included) |
| SnakeEngine.TickDelayNonIncreasing | app/src/main/java/com/example/snakegame/SnakeGameViewModel.kt:28-32 | from size 1 on, a longer snake never gets a longer delay |
| SnakeEngine.Ticks | app/src/main/java/com/example/snakegame/SnakeGameViewModel.kt:27-35 | repeated ticks while started never shrink the snake and never change direction, lifecycle state or grid sizes |
| SnakeEngine.Delays | app/src/main/java/com/example/snakegame/SnakeGameViewModel.kt:27-33 | the loop waits once per tick when started and not at all otherwise |
| SnakeEngine.TicksPreserveInvariant | app/src/main/java/com/example/snakegame/SnakeGameViewModel.kt:27-35 | any number of loop iterations keeps the snake invariant |
| SnakeEngine.TicksAfterGameOver | app/src/main/java/com/example/snakegame/SnakeGameViewModel.kt:27-51 | once the game is over, running the loop leaves the snapshot identical |
| SnakeEngine.DelaysBoundedByFirst | app/src/main/java/com/example/snakegame/SnakeGameViewModel.kt:27-33 | no delay of the loop exceeds the delay for the snake it started with |
| SnakeEngine.DelaysNonIncreasing | app/src/main/java/com/example/snakegame/SnakeGameViewModel.kt:27-33 | the speed ramp: the sequence of delays the loop waits never increases |
| SnakeEngine.NextHeadAsWrittenDefect | app/src/main/java/com/example/snakegame/SnakeGameViewModel.kt:58-74 | as written, Up and Down give the same cell and Left/Right move the head two cells (diagonally) |
| SnakeEngine.IntendedIsNeighbour | app/src/main/java/com/example/snakegame/SnakeGameViewModel.kt:58-74 | the conventional movement reaches an adjacent cell, different directions reach different cells, and the opposite direction comes back |
| SnakeEngine.UpdateGameIntended | app/src/main/java/com/example/snakegame/SnakeGameViewModel.kt:48-96 | the tick with conventional movement: identity once the game is over, and a tick that does not end the game moves the head to an adjacent cell |
| SnakeEngine.UpdateGameIntendedPreservesInvariant | app/src/main/java/com/example/snakegame/SnakeGameViewModel.kt:48-96 | the conventional tick keeps the snake invariant too |
| SnakeEngine.DownIntoOwnBodyScenario | app/src/main/java/com/example/snakegame/SnakeGameViewModel.kt:58-82 | a vertical snake heading Down keeps playing as written (head to (5,4)) but ends the game with conventional movement (head onto its second segment) |
| SnakeViewModel.SnakeGameViewModel.constructor | app/src/main/java/com/example/snakegame/SnakeGameViewModel.kt:18 | the view model starts with the default snapshot it is given, which keeps the snake invariant |
| SnakeViewModel.SnakeGameViewModel.OnEvent | app/src/main/java/com/example/snakegame/SnakeGameViewModel.kt:22-46 | StartGame sets STARTED and runs the loop; PauseGame sets PAUSED; ResetGame replaces the state by the freshly constructed default snapshot; UpdateDirection changes nothing; the snake invariant holds after every event |
| SnakeViewModel.SnakeGameViewModel.GameLoop | app/src/main/java/com/example/snakegame/SnakeGameViewModel.kt:26-36 | the loop leaves the snapshot `Ticks` gives, waits the delays `Delays` gives, never with a growing delay, and keeps the snake invariant |

## Left out

- Concurrency of the coroutine loop. The model runs it to completion inside the StartGame event, one iteration per supplied food coordinate. Events arriving while it waits are not interleaved. So the extra tick a pause lets through is not modelled: the loop tests its guard before the delay and ticks after it. Two loops running after a second StartGame are not modelled either.
- `delay`, `viewModelScope.launch` and `MutableStateFlow` publication: timing and threading. The loop returns the delays it would wait instead.
- `SnakeGameState.generateRandomFoodCoordinate()` and the defaults of `SnakeGameState()` are not part of this model. They are taken as arguments.
- SnakeViewModel.SnakeGameViewModel.constructor: requires the default snapshot to keep the snake invariant, because its defaults are not part of this model.
- SnakeViewModel.SnakeGameViewModel.OnEvent: requires the snapshot supplied for a reset to keep the snake invariant, for the same reason.
- SnakeEngine.UpdateGame: requires a running game to have a non-empty snake, so the exception `snake.first()` throws on an empty list (`SnakeGameViewModel.kt:53`) is not modelled. The case is unreachable: the view model starts from and resets to snapshots with a non-empty snake, and no tick shrinks the snake. `SnakeEngine.UpdateGameIntended` carries the same requirement.
- Kotlin's 32-bit `Int` wrap-around is not modelled on arbitrary snapshots. `NoOverflowUnderInvariant` shows that no wrap-around can happen on snapshots that keep the snake invariant.
- The pixel and float payload of a tap (`Offset`, canvas width). It is carried by `UpdateDirection` but never read, as in the code.
- `SnakeGameScreen.kt` (layout, drawing, sound cues, score text) and `MainActivity.kt` (lifecycle wiring): presentation only.

## Findings

| source | as written | input that shows it | evidently intended | confidence | as-written member | corrected member |
|---|---|---|---|---|---|---|
| app/src/main/java/com/example/snakegame/SnakeGameViewModel.kt:58-74 | Down moves to (x, y-1) like Up; Left and Right also decrement y | head (5,5) heading Down moves to (5,4), not (5,6); heading Right moves to (6,4), two cells away | move one cell along the heading: Up y-1, Down y+1, Left x-1, Right x+1 | high, not executed | SnakeEngine.NextHeadAsWrittenDefect | SnakeEngine.IntendedIsNeighbour |

The corrected movement is `IntendedNextHead`. `UpdateGameIntended` uses it
and keeps the snake invariant (`UpdateGameIntendedPreservesInvariant`),
because every invariant lemma is proved for an arbitrary new head on
`Advance`. The view model runs `UpdateGame` with the movement as written,
because that is what the program runs.
