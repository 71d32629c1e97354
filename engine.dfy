/**
 * The game state and its transitions: start and reset, the autopilot toggle,
 * manual direction changes and the tick that moves the snake.
 */
module Engine {
  import opened Optional
  import opened Grid
  import opened Pathfinder
  import opened Autopilot
  import opened Controls

  /** Where the snake starts: a single segment in the middle of the board. */
  const START: Cell := Cell(10, 10)
  /** Where the first food lies before any reset. */
  const INITIAL_FOOD: Cell := Cell(5, 5)
  /** Points for each food eaten. */
  const FOOD_REWARD: nat := 10

  /**
   * A well-formed snake, head first: at least one segment, all on the board,
   * no two on the same cell, each next to the one before it.
   */
  ghost predicate IsSnake(s: seq<Cell>)
  {
    && |s| >= 1
    && (forall i :: 0 <= i < |s| ==> InBounds(s[i]))
    && Distinct(s)
    && (forall i :: 0 <= i < |s| - 1 ==> Adjacent(s[i], s[i + 1]))
  }

  /** A new head on a free cell next to the old head keeps the snake well formed. */
  lemma GrowKeepsSnake(h: Cell, s: seq<Cell>)
    requires IsSnake(s) && Free(h, s) && Adjacent(h, s[0])
    ensures IsSnake([h] + s)
  {
    var t := [h] + s;
    forall i, j | 0 <= i < j < |t| ensures t[i] != t[j] {
      if i == 0 {
        assert t[j] == s[j - 1];
      } else {
        assert t[i] == s[i - 1] && t[j] == s[j - 1];
      }
    }
    forall i | 0 <= i < |t| - 1 ensures Adjacent(t[i], t[i + 1]) {
      if i > 0 {
        assert t[i] == s[i - 1] && t[i + 1] == s[i];
      }
    }
  }

  /** Dropping the tail segment keeps the snake well formed. */
  lemma DropTailKeepsSnake(s: seq<Cell>)
    requires IsSnake(s) && |s| >= 2
    ensures IsSnake(s[..|s| - 1])
  {
    var t := s[..|s| - 1];
    assert forall i :: 0 <= i < |t| ==> t[i] == s[i];
  }

  /**
   * A cell on the board and off the snake. The game draws cells at random
   * until one is off the snake; the model lets it be any such cell.
   */
  method GenerateFood(snake: seq<Cell>) returns (food: Cell)
    requires exists c :: InBounds(c) && c !in snake
    ensures InBounds(food) && food !in snake
  {
    ghost var c :| InBounds(c) && c !in snake;
    assert c in Board();
    food :| food in Board() && food !in snake;
  }

  class SnakeGame {
    /** The segments, head first. */
    var snake: seq<Cell>
    var food: Cell
    /** The direction of the next move. */
    var direction: Vec
    var gameOver: bool
    var score: nat
    /** The best score so far, including the one stored when the game was opened. */
    var highScore: nat
    /** Whether the autopilot steers. */
    var isAI: bool

    /**
     * The state every transition keeps: a well-formed snake, food on the
     * board and off the snake, a unit direction, ten points per segment
     * grown, and a high score no lower than the score.
     */
    ghost predicate Valid()
      reads this
    {
      && IsSnake(snake)
      && InBounds(food) && food !in snake
      && IsUnit(direction)
      && score == FOOD_REWARD * (|snake| - 1)
      && score <= highScore
    }

    /** A fresh game, with the high score read back from storage. */
    constructor (storedHighScore: nat)
      ensures Valid()
      ensures snake == [START] && food == INITIAL_FOOD && direction == RIGHT
      ensures !gameOver && score == 0 && highScore == storedHighScore && !isAI
    {
      snake := [START];
      food := INITIAL_FOOD;
      direction := RIGHT;
      gameOver := false;
      score := 0;
      highScore := storedHighScore;
      isAI := false;
    }

    /** Start over; the high score and the autopilot setting survive. */
    method Reset()
      requires Valid()
      modifies this
      ensures Valid()
      ensures snake == [START] && direction == RIGHT && !gameOver && score == 0
      ensures highScore == old(highScore) && isAI == old(isAI)
    {
      snake := [START];
      FreeCellExists([START]);
      food := GenerateFood([START]);
      direction := RIGHT;
      gameOver := false;
      score := 0;
    }

    /** The autopilot button. */
    method ToggleAutopilot()
      requires Valid()
      modifies this
      ensures Valid()
      ensures isAI == !old(isAI)
      ensures snake == old(snake) && food == old(food) && direction == old(direction)
      ensures gameOver == old(gameOver) && score == old(score) && highScore == old(highScore)
    {
      isAI := !isAI;
    }

    /** A request to turn, filtered so that it never reverses the direction. */
    method ChangeDirection(requested: Vec)
      requires Valid() && IsUnit(requested)
      modifies this
      ensures Valid()
      ensures direction == FilterDirection(old(direction), requested)
      ensures direction != Reverse(old(direction))
      ensures snake == old(snake) && food == old(food) && isAI == old(isAI)
      ensures gameOver == old(gameOver) && score == old(score) && highScore == old(highScore)
    {
      var filtered := FilterDirection(direction, requested);
      assert IsUnit(filtered) && filtered != Reverse(direction);
      direction := filtered;
    }

    /** A key press or on-screen button; ignored while the autopilot steers. */
    method HandleManualControl(key: string)
      requires Valid()
      modifies this
      ensures Valid()
      ensures direction == (if old(isAI) || KeyDirection(key).None? then old(direction)
                            else FilterDirection(old(direction), KeyDirection(key).value))
      ensures snake == old(snake) && food == old(food) && isAI == old(isAI)
      ensures gameOver == old(gameOver) && score == old(score) && highScore == old(highScore)
    {
      if isAI {
        return;
      }
      var d := KeyDirection(key);
      if d.Some? {
        ChangeDirection(d.value);
      }
    }

    /**
     * One step of the game loop. With the autopilot on, its move (if any)
     * becomes the direction. The head then moves one cell that way: off the
     * board or onto the snake ends the game and leaves the snake in place;
     * onto the food grows the snake, scores, and places new food; otherwise
     * the tail follows. A finished game does not move.
     */
    method Tick()
      requires Valid()
      requires |snake| + 2 <= GRID_SIZE * GRID_SIZE
      modifies this
      ensures Valid()
      ensures isAI == old(isAI)
      ensures old(gameOver) ==> gameOver && snake == old(snake) && food == old(food) && direction == old(direction)
                                && score == old(score) && highScore == old(highScore)
      ensures !old(gameOver) && !old(isAI) ==> direction == old(direction)
      ensures !old(gameOver) && old(isAI) ==>
                (gameOver <==> !HasFreeNeighbour(old(snake)[0], old(snake)))
                && (Reachable(old(snake)[0], old(food), old(snake)) && old(snake)[0] != old(food) ==>
                      FirstStepOfShortest(old(snake)[0], old(food), old(snake), Step(old(snake)[0], direction)))
                && (!Reachable(old(snake)[0], old(food), old(snake)) || old(snake)[0] == old(food) ==>
                      direction == (if FirstSafeMove(old(snake)[0], old(snake)).Some?
                                    then FirstSafeMove(old(snake)[0], old(snake)).value else old(direction)))
      ensures !old(gameOver) ==>
                var h := Step(old(snake)[0], direction);
                && (gameOver <==> !Free(h, old(snake)))
                && (gameOver ==> snake == old(snake) && food == old(food)
                                 && score == old(score) && highScore == old(highScore))
                && (!gameOver && h == old(food) ==>
                      snake == [h] + old(snake) && score == old(score) + FOOD_REWARD
                      && highScore == (if score > old(highScore) then score else old(highScore)))
                && (!gameOver && h != old(food) ==>
                      snake == [h] + old(snake)[..|old(snake)| - 1] && food == old(food)
                      && score == old(score) && highScore == old(highScore))
    {
      if gameOver {
        return;
      }
      if isAI {
        var aiMove := DecideNextMove(snake, food);
        if aiMove.Some? {
          direction := aiMove.value;
        } else {
          StuckMeansBlocked(snake[0], snake, direction);
        }
      }
      Advance();
    }

    /**
     * The movement half of a tick, once the direction is settled: wall
     * collision, then self collision (against the whole body, tail included),
     * then eating or moving on.
     */
    method Advance()
      requires Valid() && !gameOver
      requires |snake| + 2 <= GRID_SIZE * GRID_SIZE
      modifies this
      ensures Valid()
      ensures isAI == old(isAI) && direction == old(direction)
      ensures var h := Step(old(snake)[0], old(direction));
              && (gameOver <==> !Free(h, old(snake)))
              && (gameOver ==> snake == old(snake) && food == old(food)
                               && score == old(score) && highScore == old(highScore))
              && (!gameOver && h == old(food) ==>
                    snake == [h] + old(snake) && score == old(score) + FOOD_REWARD
                    && highScore == (if score > old(highScore) then score else old(highScore)))
              && (!gameOver && h != old(food) ==>
                    snake == [h] + old(snake)[..|old(snake)| - 1] && food == old(food)
                    && score == old(score) && highScore == old(highScore))
    {
      var prevSnake := snake;
      var dir := direction;
      var newHead := Cell(prevSnake[0].x + dir.x, prevSnake[0].y + dir.y);
      if newHead.x < 0 || newHead.x >= GRID_SIZE || newHead.y < 0 || newHead.y >= GRID_SIZE {
        gameOver := true;
      } else if newHead in prevSnake {
        gameOver := true;
      } else {
        StepIsAdjacent(prevSnake[0], dir);
        GrowKeepsSnake(newHead, prevSnake);
        var newSnake := [newHead] + prevSnake;
        if newHead == food {
          var newScore := score + FOOD_REWARD;
          if newScore > highScore {
            highScore := newScore;
          }
          score := newScore;
          FreeCellExists(newSnake);
          food := GenerateFood(newSnake);
        } else {
          DropTailKeepsSnake(newSnake);
          newSnake := newSnake[..|newSnake| - 1];
        }
        snake := newSnake;
      }
    }
  }

  /** With no free neighbour, any unit step leaves the board or hits the snake. */
  lemma StuckMeansBlocked(head: Cell, snake: seq<Cell>, d: Vec)
    requires IsUnit(d) && !HasFreeNeighbour(head, snake)
    ensures !Free(Step(head, d), snake)
  {
    StepIsAdjacent(head, d);
  }

  /** The first tick of a fresh game moves the lone segment one cell right. */
  method FirstTickFromStart()
  {
    var game := new SnakeGame(0);
    game.Tick();
    assert game.snake == [Cell(11, 10)] && !game.gameOver && game.score == 0;
  }

  /** A head pointing into the wall ends the game and leaves the snake in place. */
  method WallScenario()
  {
    var game := new SnakeGame(0);
    game.snake := [Cell(0, 0)];
    game.direction := LEFT;
    game.Tick();
    assert game.gameOver && game.snake == [Cell(0, 0)] && game.score == 0;
  }

  /** Food right ahead: one tick grows the snake onto it and scores. */
  method EatScenario()
  {
    var game := new SnakeGame(0);
    game.food := Cell(11, 10);
    game.Tick();
    assert game.snake == [Cell(11, 10), Cell(10, 10)] && !game.gameOver;
    assert game.score == 10 && game.highScore == 10 && game.food !in game.snake;
  }

  /** Moving RIGHT, a request for LEFT is dropped. */
  method ReversalScenario()
  {
    var game := new SnakeGame(0);
    game.HandleManualControl("ArrowLeft");
    assert game.direction == RIGHT;
  }
}
