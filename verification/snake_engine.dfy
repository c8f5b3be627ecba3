/** The one-tick game transition of the view model (`updateGame`), the
    speed-ramp table of its driver loop, and what they guarantee. */
module SnakeEngine {
  import opened SnakeState

  // ---------------------------------------------------------------------
  // Head movement
  // ---------------------------------------------------------------------

  /** The cell the head moves to, exactly as the view model computes it:
      every direction takes the row above (y - 1); Left and Right also shift
      the column. Up and Down give the same cell. */
  function NextHead(head: Coordinate, direction: Direction): (r: Coordinate)
    ensures r.y == head.y - 1
    ensures r.x == head.x + (if direction == Left then -1 else if direction == Right then 1 else 0)
  {
    match direction
    case Up => Coordinate(head.x, head.y - 1)
    case Down => Coordinate(head.x, head.y - 1)
    case Left => Coordinate(head.x - 1, head.y - 1)
    case Right => Coordinate(head.x + 1, head.y - 1)
  }

  /** The conventional movement: one cell along the heading. */
  function IntendedNextHead(head: Coordinate, direction: Direction): (r: Coordinate) {
    match direction
    case Up => Coordinate(head.x, head.y - 1)
    case Down => Coordinate(head.x, head.y + 1)
    case Left => Coordinate(head.x - 1, head.y)
    case Right => Coordinate(head.x + 1, head.y)
  }

  function Abs(n: int): (r: nat) {
    if n < 0 then -n else n
  }

  /** Manhattan distance between two cells. */
  function Distance(a: Coordinate, b: Coordinate): (r: nat) {
    Abs(a.x - b.x) + Abs(a.y - b.y)
  }

  function Opposite(d: Direction): (r: Direction) {
    match d
    case Up => Down
    case Down => Up
    case Left => Right
    case Right => Left
  }

  // ---------------------------------------------------------------------
  // The tick
  // ---------------------------------------------------------------------

  /** Everything `updateGame` does once the new head is known: the collision
      and wall check that ends the game, then prepend the head and drop the
      tail unless the food is eaten, in which case the food moves to
      `newFood`. */
  function Advance(g: SnakeGameState, newHead: Coordinate, newFood: Coordinate): (r: SnakeGameState)
    ensures r.direction == g.direction && r.gameState == g.gameState
    ensures r.xAxisGridSize == g.xAxisGridSize && r.yAxisGridSize == g.yAxisGridSize
    ensures !g.isGameOver && r.isGameOver ==> r == g.(isGameOver := true)
    ensures |g.snake| > 0 ==> |r.snake| > 0
  {
    if newHead in g.snake || !IsWithinBounds(newHead, g.xAxisGridSize, g.yAxisGridSize) then
      g.(isGameOver := true)
    else
      var grown := [newHead] + g.snake;
      var food := if newHead == g.food then newFood else g.food;
      var snake := if newHead != g.food then grown[..|grown| - 1] else grown;
      g.(snake := snake, food := food)
  }

  /** One tick of the game. `newFood` stands for what the food generator
      would return if it were called on this tick. */
  function UpdateGame(g: SnakeGameState, newFood: Coordinate): (r: SnakeGameState)
    requires Tickable(g)
    ensures r.direction == g.direction && r.gameState == g.gameState
    ensures r.xAxisGridSize == g.xAxisGridSize && r.yAxisGridSize == g.yAxisGridSize
    ensures g.isGameOver ==> r == g
    ensures r.isGameOver ==> r.snake == g.snake && r.food == g.food
    ensures |g.snake| <= |r.snake| <= |g.snake| + 1
    ensures Tickable(r)
  {
    if g.isGameOver then g
    else Advance(g, NextHead(g.snake[0], g.direction), newFood)
  }

  /** The tick with the conventional movement in place of `NextHead`. */
  function UpdateGameIntended(g: SnakeGameState, newFood: Coordinate): (r: SnakeGameState)
    requires Tickable(g)
    ensures g.isGameOver ==> r == g
    ensures Tickable(r)
    ensures !r.isGameOver ==> Distance(r.snake[0], g.snake[0]) == 1
  {
    if g.isGameOver then g
    else Advance(g, IntendedNextHead(g.snake[0], g.direction), newFood)
  }

  // ---------------------------------------------------------------------
  // Properties of one step
  // ---------------------------------------------------------------------

  /** The game ends exactly when the new head hits the snake (the tail cell
      included) or a wall, and then only the game-over flag changes. */
  lemma CollisionEndsGame(g: SnakeGameState, newFood: Coordinate)
    requires !g.isGameOver && |g.snake| > 0
    ensures var h := NextHead(g.snake[0], g.direction);
            UpdateGame(g, newFood).isGameOver <==>
              (h in g.snake || !IsWithinBounds(h, g.xAxisGridSize, g.yAxisGridSize))
    ensures UpdateGame(g, newFood).isGameOver ==>
              UpdateGame(g, newFood) == g.(isGameOver := true)
  {
  }

  /** Eating: the new head is prepended to the whole old snake, so the snake
      grows by exactly one, and the food moves to the generated cell. */
  lemma EatingGrowsByOne(g: SnakeGameState, newFood: Coordinate)
    requires !g.isGameOver && |g.snake| > 0
    requires NextHead(g.snake[0], g.direction) == g.food
    requires !UpdateGame(g, newFood).isGameOver
    ensures UpdateGame(g, newFood).snake == [g.food] + g.snake
    ensures |UpdateGame(g, newFood).snake| == |g.snake| + 1
    ensures UpdateGame(g, newFood).food == newFood
  {
  }

  /** Moving without eating: the new head is prepended and the tail dropped,
      so the length and the food stay as they were. */
  lemma MovingKeepsLength(g: SnakeGameState, newFood: Coordinate)
    requires !g.isGameOver && |g.snake| > 0
    requires NextHead(g.snake[0], g.direction) != g.food
    requires !UpdateGame(g, newFood).isGameOver
    ensures UpdateGame(g, newFood).snake ==
              [NextHead(g.snake[0], g.direction)] + g.snake[..|g.snake| - 1]
    ensures |UpdateGame(g, newFood).snake| == |g.snake|
    ensures UpdateGame(g, newFood).food == g.food
  {
  }

  /** Once the game is over, every further tick returns the same snapshot,
      whatever food the generator would offer. */
  lemma GameOverIsFixedPoint(g: SnakeGameState, food1: Coordinate, food2: Coordinate)
    requires Tickable(g)
    requires UpdateGame(g, food1).isGameOver
    ensures UpdateGame(UpdateGame(g, food1), food2) == UpdateGame(g, food1)
  {
  }

  /** A step keeps the snake invariant, whatever cell the head moves to: the
      head was checked against the whole old snake and the walls, and the rest
      is a prefix of the old snake. */
  lemma AdvancePreservesInvariant(g: SnakeGameState, newHead: Coordinate, newFood: Coordinate)
    requires SnakeInvariant(g)
    ensures SnakeInvariant(Advance(g, newHead, newFood))
  {
  }

  /** A tick keeps the snake invariant, game over or not. */
  lemma UpdateGamePreservesInvariant(g: SnakeGameState, newFood: Coordinate)
    requires SnakeInvariant(g)
    ensures SnakeInvariant(UpdateGame(g, newFood))
  {
  }

  /** The conventional tick keeps the snake invariant too. */
  lemma UpdateGameIntendedPreservesInvariant(g: SnakeGameState, newFood: Coordinate)
    requires SnakeInvariant(g)
    ensures SnakeInvariant(UpdateGameIntended(g, newFood))
  {
  }

  /** Food that lay off the snake is still off it after a tick that did not
      eat it; after a tick that did, the generated cell is off the new snake
      exactly when it is off the old snake and is not the cell just eaten. */
  lemma FoodStaysClear(g: SnakeGameState, newFood: Coordinate)
    requires SnakeInvariant(g) && FoodClear(g) && !g.isGameOver
    ensures var r := UpdateGame(g, newFood);
            r.isGameOver || NextHead(g.snake[0], g.direction) != g.food ==> FoodClear(r)
    ensures var r := UpdateGame(g, newFood);
            !r.isGameOver && NextHead(g.snake[0], g.direction) == g.food ==>
              (FoodClear(r) <==> newFood !in g.snake && newFood != g.food)
  {
  }

  /** The arithmetic of a tick fits Kotlin's `Int` for every state that keeps
      the invariant on a grid whose sizes are `Int`s: `head.y - 1`,
      `head.x +- 1` and `gridSize - 1` never wrap around. */
  lemma NoOverflowUnderInvariant(g: SnakeGameState)
    requires SnakeInvariant(g)
    requires IsInt32(g.xAxisGridSize) && IsInt32(g.yAxisGridSize)
    ensures IsInt32(g.xAxisGridSize - 1) && IsInt32(g.yAxisGridSize - 1)
    ensures var h := NextHead(g.snake[0], g.direction); IsInt32(h.x) && IsInt32(h.y)
  {
    assert IsWithinBounds(g.snake[0], g.xAxisGridSize, g.yAxisGridSize);
  }

  // ---------------------------------------------------------------------
  // The driver loop: repeated ticks and the speed ramp
  // ---------------------------------------------------------------------

  /** Delay before the next tick for a snake of the given size:
      120 for sizes 1 to 5, 110 for 6 to 10, 100 otherwise. */
  function TickDelay(size: int): (r: int)
    ensures r == 100 || r == 110 || r == 120
    ensures r == 120 <==> 1 <= size <= 5
    ensures r == 110 <==> 6 <= size <= 10
  {
    if 1 <= size <= 5 then 120
    else if 6 <= size <= 10 then 110
    else 100
  }

  /** A longer snake never waits longer. */
  lemma TickDelayNonIncreasing(a: int, b: int)
    requires 1 <= a <= b
    ensures TickDelay(b) <= TickDelay(a)
  {
  }

  /** The state after the driver loop has run while the game was started,
      one tick per element of `foods` (the generator's answer on that tick). */
  function Ticks(g: SnakeGameState, foods: seq<Coordinate>): (r: SnakeGameState)
    requires Tickable(g)
    ensures Tickable(r)
    ensures |r.snake| >= |g.snake|
    ensures r.direction == g.direction && r.gameState == g.gameState
    ensures r.xAxisGridSize == g.xAxisGridSize && r.yAxisGridSize == g.yAxisGridSize
    decreases |foods|
  {
    if g.gameState != STARTED || foods == [] then g
    else Ticks(UpdateGame(g, foods[0]), foods[1..])
  }

  /** The delays the driver loop waits, one before each tick of `Ticks`. */
  function Delays(g: SnakeGameState, foods: seq<Coordinate>): (r: seq<int>)
    requires Tickable(g)
    ensures |r| == if g.gameState == STARTED then |foods| else 0
    decreases |foods|
  {
    if g.gameState != STARTED || foods == [] then []
    else [TickDelay(|g.snake|)] + Delays(UpdateGame(g, foods[0]), foods[1..])
  }

  /** Any number of ticks keeps the snake invariant. */
  lemma {:induction false} TicksPreserveInvariant(g: SnakeGameState, foods: seq<Coordinate>)
    requires SnakeInvariant(g)
    ensures SnakeInvariant(Ticks(g, foods))
    decreases |foods|
  {
    if g.gameState == STARTED && foods != [] {
      UpdateGamePreservesInvariant(g, foods[0]);
      TicksPreserveInvariant(UpdateGame(g, foods[0]), foods[1..]);
    }
  }

  /** Once the game is over, the driver loop changes nothing. */
  lemma {:induction false} TicksAfterGameOver(g: SnakeGameState, foods: seq<Coordinate>)
    requires g.isGameOver
    ensures Ticks(g, foods) == g
    decreases |foods|
  {
    if g.gameState == STARTED && foods != [] {
      TicksAfterGameOver(UpdateGame(g, foods[0]), foods[1..]);
    }
  }

  /** Every delay the loop waits is at most the delay for the starting
      snake, since the snake never shrinks. */
  lemma {:induction false} DelaysBoundedByFirst(g: SnakeGameState, foods: seq<Coordinate>)
    requires Tickable(g) && |g.snake| > 0
    ensures forall k :: 0 <= k < |Delays(g, foods)| ==> Delays(g, foods)[k] <= TickDelay(|g.snake|)
    decreases |foods|
  {
    if g.gameState == STARTED && foods != [] {
      var g' := UpdateGame(g, foods[0]);
      DelaysBoundedByFirst(g', foods[1..]);
      TickDelayNonIncreasing(|g.snake|, |g'.snake|);
    }
  }

  /** The speed ramp: the delays the loop waits never increase. */
  lemma {:induction false} DelaysNonIncreasing(g: SnakeGameState, foods: seq<Coordinate>)
    requires Tickable(g) && |g.snake| > 0
    ensures var d := Delays(g, foods);
            forall i, j :: 0 <= i <= j < |d| ==> d[j] <= d[i]
    decreases |foods|
  {
    if g.gameState == STARTED && foods != [] {
      var g' := UpdateGame(g, foods[0]);
      DelaysNonIncreasing(g', foods[1..]);
      DelaysBoundedByFirst(g, foods);
      var d := Delays(g, foods);
      assert d == [TickDelay(|g.snake|)] + Delays(g', foods[1..]);
      forall i, j | 0 <= i <= j < |d|
        ensures d[j] <= d[i]
      {
        if i > 0 {
          assert d[i] == Delays(g', foods[1..])[i - 1];
          assert d[j] == Delays(g', foods[1..])[j - 1];
        }
      }
    }
  }

  // ---------------------------------------------------------------------
  // The head-movement defect
  // ---------------------------------------------------------------------

  /** As written, Up and Down move the head to the same cell, and Left and
      Right move it diagonally, two cells away from where it was. */
  lemma NextHeadAsWrittenDefect(head: Coordinate)
    ensures NextHead(head, Up) == NextHead(head, Down)
    ensures Distance(NextHead(head, Left), head) == 2
    ensures Distance(NextHead(head, Right), head) == 2
  {
  }

  /** The conventional movement reaches a neighbouring cell in every
      direction, different directions reach different cells, and moving in
      the opposite direction comes back. */
  lemma IntendedIsNeighbour(head: Coordinate, d: Direction)
    ensures Distance(IntendedNextHead(head, d), head) == 1
    ensures forall e :: e != d ==> IntendedNextHead(head, e) != IntendedNextHead(head, d)
    ensures IntendedNextHead(IntendedNextHead(head, d), Opposite(d)) == head
  {
  }

  /** A concrete case where the two movements disagree on the outcome: a
      straight vertical snake headed Down on a 20 x 30 board. As written the
      head goes up to (5,4) and the game goes on; with the conventional
      movement it runs into its own second segment and the game ends. */
  lemma DownIntoOwnBodyScenario()
    ensures var g := SnakeGameState([Coordinate(5, 5), Coordinate(5, 6), Coordinate(5, 7)],
                                    Coordinate(10, 10), Down, 20, 30, STARTED, false);
            var r := UpdateGame(g, Coordinate(1, 1));
            !r.isGameOver && r.snake == [Coordinate(5, 4), Coordinate(5, 5), Coordinate(5, 6)] &&
            UpdateGameIntended(g, Coordinate(1, 1)) == g.(isGameOver := true)
  {
  }
}
