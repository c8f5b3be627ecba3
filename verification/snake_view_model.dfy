/** The view model that owns the current snapshot: it edits the lifecycle
    state on user events and, once started, runs the tick loop. */
module SnakeViewModel {
  import opened SnakeState
  import opened SnakeEngine

  /** What the screen sends. A tap carries its position and the canvas width
      (pixel floats, kept only so that the event has its shape). */
  datatype SnakeGameEvent =
    | StartGame
    | PauseGame
    | ResetGame
    | UpdateDirection(offsetX: real, offsetY: real, canvasWidth: real)

  class SnakeGameViewModel {
    /** The published snapshot. */
    var state: SnakeGameState

    ghost predicate Valid()
      reads this
    {
      SnakeInvariant(state)
    }

    /** `defaultState` is the default-constructed snapshot the state flow
        starts from. */
    constructor (defaultState: SnakeGameState)
      requires SnakeInvariant(defaultState)
      ensures Valid()
      ensures state == defaultState
    {
      state := defaultState;
    }

    /** Handles one event. On StartGame the tick loop runs once per element of
        `foods`, which stands for the food generator's answer on each tick;
        `delays` are the waits the loop takes before its ticks. On ResetGame
        the state becomes `freshState`, the default snapshot constructed anew
        for this reset; the other events ignore it. */
    method OnEvent(event: SnakeGameEvent, foods: seq<Coordinate>, freshState: SnakeGameState)
      returns (delays: seq<int>)
      requires Valid()
      requires event.ResetGame? ==> SnakeInvariant(freshState)
      modifies this
      ensures Valid()
      ensures event.StartGame? ==>
                state == Ticks(old(state).(gameState := STARTED), foods) &&
                delays == Delays(old(state).(gameState := STARTED), foods) &&
                |delays| == |foods|
      ensures event.PauseGame? ==> state == old(state).(gameState := PAUSED) && delays == []
      ensures event.ResetGame? ==> state == freshState && delays == []
      ensures event.UpdateDirection? ==> state == old(state) && delays == []
    {
      delays := [];
      match event
      case StartGame =>
        state := state.(gameState := STARTED);
        delays := GameLoop(foods);
      case PauseGame =>
        state := state.(gameState := PAUSED);
      case ResetGame =>
        state := freshState;
      case UpdateDirection(_, _, _) =>
    }

    /** The launched driver loop: while the game is started, pick the delay
        from the snake's size, wait, and replace the snapshot by one tick. */
    method GameLoop(foods: seq<Coordinate>) returns (delays: seq<int>)
      requires Valid()
      modifies this
      ensures Valid()
      ensures state == Ticks(old(state), foods)
      ensures delays == Delays(old(state), foods)
      ensures forall i, j :: 0 <= i <= j < |delays| ==> delays[j] <= delays[i]
    {
      DelaysNonIncreasing(state, foods);
      delays := [];
      var i := 0;
      while i < |foods| && state.gameState == STARTED
        invariant 0 <= i <= |foods|
        invariant SnakeInvariant(state)
        invariant Ticks(old(state), foods) == Ticks(state, foods[i..])
        invariant Delays(old(state), foods) == delays + Delays(state, foods[i..])
      {
        var delayMillis := TickDelay(|state.snake|);
        delays := delays + [delayMillis];
        UpdateGamePreservesInvariant(state, foods[i]);
        assert foods[i..][1..] == foods[i + 1..];
        state := UpdateGame(state, foods[i]);
        i := i + 1;
      }
    }
  }
}
