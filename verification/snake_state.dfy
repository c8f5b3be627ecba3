/** The game snapshot that the view model replaces wholesale on every event
    and every tick, and the board geometry it is checked against. */
module SnakeState {

  /** A grid cell address. */
  datatype Coordinate = Coordinate(x: int, y: int)

  /** The heading the snake moves in. */
  datatype Direction = Up | Down | Left | Right

  /** The lifecycle control state, independent of the game-over flag. */
  datatype GameState = IDLE | STARTED | PAUSED

  /** One immutable snapshot of the game. `snake` is head-first: index 0 is
      the head, the last element the tail. */
  datatype SnakeGameState = SnakeGameState(
    snake: seq<Coordinate>,
    food: Coordinate,
    direction: Direction,
    xAxisGridSize: int,
    yAxisGridSize: int,
    gameState: GameState,
    isGameOver: bool)

  /** Kotlin's `Int`, the type of coordinates and grid sizes. */
  predicate IsInt32(n: int) {
    -0x8000_0000 <= n < 0x8000_0000
  }

  /** A cell is playable when it lies strictly inside the border on both
      axes (`x in 1 until xAxisGridSize - 1`, and the same for y). */
  predicate IsWithinBounds(c: Coordinate, xAxisGridSize: int, yAxisGridSize: int)
    ensures IsWithinBounds(c, xAxisGridSize, yAxisGridSize) ==>
              0 <= c.x < xAxisGridSize && 0 <= c.y < yAxisGridSize
    ensures 0 <= c.x < xAxisGridSize && 0 <= c.y < yAxisGridSize ==>
              (IsWithinBounds(c, xAxisGridSize, yAxisGridSize) <==>
                 !(c.x == 0 || c.x == xAxisGridSize - 1 || c.y == 0 || c.y == yAxisGridSize - 1))
  {
    1 <= c.x < xAxisGridSize - 1 && 1 <= c.y < yAxisGridSize - 1
  }

  /** No coordinate occurs twice in `s`. */
  predicate NoDuplicates(s: seq<Coordinate>) {
    forall i, j :: 0 <= i < j < |s| ==> s[i] != s[j]
  }

  /** Every segment of `s` is a playable cell. */
  predicate AllWithinBounds(s: seq<Coordinate>, xAxisGridSize: int, yAxisGridSize: int) {
    forall i :: 0 <= i < |s| ==> IsWithinBounds(s[i], xAxisGridSize, yAxisGridSize)
  }

  /** The snake invariant of the game: never empty, never overlapping itself,
      never on a wall. */
  predicate SnakeInvariant(g: SnakeGameState) {
    |g.snake| > 0 &&
    NoDuplicates(g.snake) &&
    AllWithinBounds(g.snake, g.xAxisGridSize, g.yAxisGridSize)
  }

  /** The food lies on no segment of the snake. */
  predicate FoodClear(g: SnakeGameState) {
    g.food !in g.snake
  }

  /** A tick reads `snake.first()`, which throws on an empty list, unless the
      game is already over and the tick returns before reading it. */
  predicate Tickable(g: SnakeGameState) {
    g.isGameOver || |g.snake| > 0
  }
}
