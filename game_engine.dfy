/**
 * The Snake engine (core/game_engine.py): the guarded direction setter, the
 * pause toggle, reset, food spawning, the per-tick transition and the
 * game-over hook that records positive scores.
 */
module GameEngine {
  import opened Wrappers
  import opened GameModels
  import opened Scores

  /** Points for eating one food. */
  const FoodReward: int := 10

  /**
   * The next head as the source builds it: `Position(x=..., y=...)` with
   * the `ge=0` constraint, so a step off the left or top edge raises.
   */
  function NextPositionAsWritten(p: Position, d: Direction): (r: Result<Position, ValidationError>)
    ensures r.Err? <==> NextPosition(p, d).x < 0 || NextPosition(p, d).y < 0
    ensures r.Ok? ==> r.value == NextPosition(p, d)
  {
    MakePosition(p.x + Delta(d).0, p.y + Delta(d).1)
  }

  /**
   * From a legal cell the as-written construction raises exactly on the
   * moves over the left and the top edge, so the `< 0` half of the wall
   * check is never reached: those moves raise instead of ending the game.
   */
  lemma AsWrittenRaisesAtTopLeftEdges(p: Position, d: Direction, n: int)
    requires InBoard(p, n)
    ensures NextPositionAsWritten(p, d).Err? <==> (d == Left && p.x == 0) || (d == Up && p.y == 0)
    ensures NextPositionAsWritten(p, d).Err? ==> !InBoard(NextPosition(p, d), n)
  {
  }

  /** A concrete case: on the default 20x20 board, heading LEFT from (0, 10). */
  lemma LeftEdgeRaisesAsWritten()
    ensures NextPositionAsWritten(Position(0, 10), Left) == Err(NegativeCoordinate(-1, 10))
    ensures !InBoard(NextPosition(Position(0, 10), Left), 20)
  {
  }

  /**
   * With plain integer cells, the wall check catches a move over any of
   * the four edges, and no other move.
   */
  lemma WallCheckCatchesEveryEdge(p: Position, d: Direction, n: int)
    requires InBoard(p, n)
    ensures !InBoard(NextPosition(p, d), n) <==>
      (d == Left && p.x == 0) || (d == Up && p.y == 0) ||
      (d == Right && p.x == n - 1) || (d == Down && p.y == n - 1)
  {
  }

  /**
   * The snake after a move that passed both collision checks: the new head
   * in front, and the tail dropped unless the snake grows.
   */
  function Advance(snake: seq<Position>, head: Position, grow: bool): (r: seq<Position>)
    requires |snake| > 0
    ensures |r| == |snake| + (if grow then 1 else 0)
    ensures r[0] == head && r[1..] == snake[..|r| - 1]
  {
    [head] + if grow then snake else snake[..|snake| - 1]
  }

  /**
   * A move onto a free board cell keeps the snake legal, and the cells it
   * covers are the new head and the old cells, less the old tail when it
   * does not grow.
   */
  lemma AdvanceWellFormed(snake: seq<Position>, head: Position, grow: bool, n: int)
    requires WellFormedSnake(snake, n) && InBoard(head, n) && head !in snake
    ensures WellFormedSnake(Advance(snake, head, grow), n)
    ensures forall c :: c in Advance(snake, head, grow) <==>
      c == head || (c in snake && (grow || c != snake[|snake| - 1]))
  {
    var r := Advance(snake, head, grow);
    var kept := r[1..];
    assert forall i :: 0 <= i < |kept| ==> kept[i] == snake[i];
    forall c | c in snake && (grow || c != snake[|snake| - 1])
      ensures c in r
    {
      var i :| 0 <= i < |snake| && snake[i] == c;
      assert r[i + 1] == c;
    }
  }

  /** The engine: one game state and one high-score list. */
  class SnakeGameEngine {
    const gameState: GameState
    const highScores: HighScores

    /**
     * What every operation maintains: a legal snake on a board of size at
     * least four, food on a free board cell, a score made of whole
     * rewards, and never paused once the game is over.
     */
    ghost predicate Valid()
      reads this, gameState
    {
      var n := gameState.boardSize;
      n >= 4 &&
      WellFormedSnake(gameState.snake, n) &&
      gameState.food.Some? && InBoard(gameState.food.value, n) &&
      gameState.food.value !in gameState.snake &&
      gameState.score >= 0 && gameState.score % FoodReward == 0 &&
      (gameState.isGameOver ==> !gameState.isPaused)
    }

    /** Ticks do nothing in this state. */
    predicate Halted()
      reads this, gameState
    {
      gameState.isGameOver || gameState.isPaused
    }

    /** The cell the head moves to on the next tick. */
    function NextHead(): Position
      reads this, gameState
      requires |gameState.snake| > 0
    {
      NextPosition(gameState.snake[0], gameState.direction)
    }

    /** The next head leaves the board. */
    predicate WallAhead()
      reads this, gameState
      requires |gameState.snake| > 0
    {
      !InBoard(NextHead(), gameState.boardSize)
    }

    /** The next head is a cell of the snake, the current tail included. */
    predicate SelfAhead()
      reads this, gameState
      requires |gameState.snake| > 0
    {
      NextHead() in gameState.snake
    }

    /** The next head is the food cell. */
    predicate FoodAhead()
      reads this, gameState
      requires |gameState.snake| > 0
    {
      SameCell(NextHead(), gameState.food)
    }

    /**
     * The food can be placed again if this tick eats: the source's retry
     * loop only ends once it finds a free cell.
     */
    ghost predicate CanRespawn()
      reads this, gameState
      requires |gameState.snake| > 0
    {
      !Halted() && FoodAhead() ==> HasFreeCell([NextHead()] + gameState.snake, gameState.boardSize)
    }

    /** A new engine over a board of the given size and the stored scores. */
    constructor (boardSize: int, loaded: seq<HighScore>)
      requires boardSize >= 4
      ensures Valid() && fresh(gameState) && fresh(highScores)
      ensures gameState.boardSize == boardSize && highScores.scores == loaded
      ensures gameState.snake == InitialSnake(boardSize) && gameState.direction == Right
      ensures gameState.score == 0 && !gameState.isGameOver && !gameState.isPaused
    {
      gameState := new GameState(boardSize);
      highScores := new HighScores(loaded);
      new;
      ResetGame();
    }

    /** Resets the state and places food on a free cell. */
    method ResetGame()
      requires gameState.boardSize >= 4
      modifies gameState
      ensures Valid()
      ensures gameState.snake == InitialSnake(gameState.boardSize) && gameState.direction == Right
      ensures gameState.score == 0 && !gameState.isGameOver && !gameState.isPaused
    {
      gameState.Reset();
      SpawnFood();
    }

    /**
     * Places food on some board cell the snake does not cover; which one
     * is left open, standing for the source's random retry loop.
     */
    method SpawnFood()
      requires HasFreeCell(gameState.snake, gameState.boardSize)
      modifies gameState
      ensures gameState.food.Some?
      ensures InBoard(gameState.food.value, gameState.boardSize)
      ensures gameState.food.value !in gameState.snake
      ensures gameState.View() == old(gameState.View()).(food := gameState.food)
    {
      var cell :| InBoard(cell, gameState.boardSize) && cell !in gameState.snake;
      gameState.food := Some(cell);
    }

    /**
     * Turns the snake, unless the game is over or paused or the new
     * heading reverses the current one.
     */
    method ChangeDirection(newDirection: Direction)
      requires Valid()
      modifies gameState
      ensures Valid()
      ensures old(Halted()) ==> gameState.View() == old(gameState.View())
      ensures !old(Halted()) ==> gameState.View() == old(gameState.View()).(direction :=
        if newDirection != Opposite(old(gameState.direction)) then newDirection else old(gameState.direction))
    {
      if gameState.isGameOver || gameState.isPaused {
        return;
      }
      if newDirection != Opposite(gameState.direction) {
        gameState.direction := newDirection;
      }
    }

    /** Flips the pause flag, unless the game is over. */
    method TogglePause()
      requires Valid()
      modifies gameState
      ensures Valid()
      ensures old(gameState.isGameOver) ==> gameState.View() == old(gameState.View())
      ensures !old(gameState.isGameOver) ==>
        gameState.View() == old(gameState.View()).(isPaused := !old(gameState.isPaused))
    {
      if !gameState.isGameOver {
        gameState.isPaused := !gameState.isPaused;
      }
    }

    /**
     * One tick. Returns whether the game goes on; `now` is the timestamp
     * recorded with a high score if the game ends.
     */
    method Update(now: string) returns (continues: bool)
      requires Valid() && CanRespawn()
      modifies gameState, highScores
      ensures Valid()
      // paused or over: nothing changes
      ensures old(Halted()) ==> (
        !continues &&
        gameState.View() == old(gameState.View()) &&
        highScores.scores == old(highScores.scores))
      // a collision ends the game and leaves the snake where it was
      ensures !old(Halted()) && (old(WallAhead()) || old(SelfAhead())) ==> (
        !continues &&
        gameState.View() == old(gameState.View()).(isGameOver := true) &&
        highScores.scores == (if old(gameState.score) > 0
          then WithEntry(old(highScores.scores), HighScore(old(gameState.score), now, DefaultPlayer))
          else old(highScores.scores)))
      // otherwise the snake moves, growing and scoring when it eats
      ensures !old(Halted()) && !old(WallAhead()) && !old(SelfAhead()) ==> (
        continues &&
        gameState.snake == Advance(old(gameState.snake), old(NextHead()), old(FoodAhead())) &&
        gameState.score == old(gameState.score) + (if old(FoodAhead()) then FoodReward else 0) &&
        (!old(FoodAhead()) ==> gameState.food == old(gameState.food)) &&
        gameState.direction == old(gameState.direction) &&
        !gameState.isGameOver && !gameState.isPaused &&
        highScores.scores == old(highScores.scores))
    {
      if gameState.isGameOver || gameState.isPaused {
        return false;
      }
      ghost var snake0 := gameState.snake;
      var head := gameState.snake[0];
      var newHead := NextPosition(head, gameState.direction);
      var n := gameState.boardSize;
      if newHead.x < 0 || newHead.x >= n || newHead.y < 0 || newHead.y >= n {
        GameOver(now);
        return false;
      }
      if newHead in gameState.snake {
        GameOver(now);
        return false;
      }
      var eats := SameCell(newHead, gameState.food);
      AdvanceWellFormed(snake0, newHead, eats, n);
      gameState.snake := [newHead] + gameState.snake;
      if eats {
        gameState.score := gameState.score + FoodReward;
        SpawnFood();
      } else {
        gameState.snake := gameState.snake[..|gameState.snake| - 1];
      }
      return true;
    }

    /** Ends the game and records a positive score. */
    method GameOver(now: string)
      requires Valid() && !gameState.isPaused
      modifies gameState, highScores
      ensures Valid()
      ensures gameState.View() == old(gameState.View()).(isGameOver := true)
      ensures highScores.scores == if old(gameState.score) > 0
        then WithEntry(old(highScores.scores), HighScore(old(gameState.score), now, DefaultPlayer))
        else old(highScores.scores)
    {
      gameState.isGameOver := true;
      if gameState.score > 0 {
        highScores.AddScore(gameState.score, now, DefaultPlayer);
      }
    }

    /** The best recorded score, or 0 when there is none. */
    function GetHighScore(): (r: int)
      reads this, highScores
      ensures highScores.scores == [] ==> r == 0
      ensures highScores.scores != [] ==> r == highScores.scores[0].score
      ensures SortedDesc(highScores.scores) ==>
        forall i :: 0 <= i < |highScores.scores| ==> highScores.scores[i].score <= r
    {
      highScores.GetHighScore()
    }
  }

  /**
   * A client of the engine's contracts: a fresh 20x20 game starts centred
   * heading RIGHT, ignores a reversal to LEFT, and does not tick while
   * paused.
   */
  method ResetReverseAndPauseScenario()
  {
    var engine := new SnakeGameEngine(20, []);
    assert engine.gameState.snake == [Position(10, 10), Position(9, 10), Position(8, 10)];
    engine.ChangeDirection(Left);
    assert engine.gameState.direction == Right;
    engine.ChangeDirection(Up);
    assert engine.gameState.direction == Up;
    engine.TogglePause();
    assert engine.gameState.isPaused;
    var continues := engine.Update("2024-01-01 12:00");
    assert !continues && engine.gameState.snake == InitialSnake(20);
  }
}
