/**
 * The module-level game state of script.js and the functions that change it:
 * resetGame, placeFood, startGame, stopGame, move, gameOver, the keydown
 * handler and the restart button.  Rendering, the HUD and the buttons'
 * enabled flags are not modelled; the interval timer is reduced to the
 * period it is armed with.
 */
module SnakeEngine {
  import opened SnakeRules

  class SnakeGame {
    /** Body cells, head first. */
    var snake: seq<Cell>
    /** Direction of the last tick. */
    var dir: Dir
    /** Direction the next tick will take (written by the keydown handler). */
    var nextDir: Dir
    var food: Cell
    var score: int
    /** Tick interval in milliseconds. */
    var speed: int
    var running: bool
    /** Period of the armed setInterval timer, or None when it is cleared. */
    var timer: Option<int>

    /**
     * What holds between any two calls: the body lies on the board without
     * repeats, the food lies on the board off the body, both directions are
     * unit steps, and the length and the interval are determined by the
     * number of foods eaten so far.
     */
    ghost predicate Valid()
      reads this
    {
      |snake| >= 1 && AllInBounds(snake) && Distinct(snake) &&
      InBounds(food) && food !in snake &&
      IsUnit(dir) && IsUnit(nextDir) &&
      score >= 0 && |snake| == |InitialSnake()| + score &&
      speed == SpeedAfter(score)
    }

    /** The timer ticks exactly while the game runs, at the current interval. */
    ghost predicate Scheduled()
      reads this
    {
      timer == if running then Some(speed) else None
    }

    /** Whether the next tick moves the head onto the food. */
    ghost predicate EatsNext()
      reads this
      requires |snake| >= 1
    {
      NextHead(snake[0], nextDir) == food
    }

    /** The module's initial values followed by the call resetGame() at load time. */
    constructor (samples: seq<Cell>)
      requires FoodSamples(samples, InitialSnake())
      ensures Valid() && Scheduled()
      ensures snake == InitialSnake() && dir == Right && nextDir == Right
      ensures score == 0 && speed == INITIAL_SPEED && !running && timer == None
      ensures food == samples[FirstFreeIndex(samples, InitialSnake())]
    {
      snake := [];
      dir := Right;
      nextDir := Right;
      food := Cell(0, 0);
      score := 0;
      speed := INITIAL_SPEED;
      running := false;
      timer := None;
      new;
      ResetGame(samples);
    }

    /** placeFood: the food moves to the first drawn cell that is off the body. */
    method PlaceFood(samples: seq<Cell>)
      requires FoodSamples(samples, snake)
      modifies this`food
      ensures old(Valid()) ==> Valid()
      ensures InBounds(food) && food !in snake
      ensures food == samples[FirstFreeIndex(samples, snake)]
    {
      food := SampleFreeCell(samples, snake);
    }

    /**
     * resetGame: a fresh three-cell snake at the centre heading right, score 0,
     * the initial interval, new food off the snake, and the timer stopped.
     */
    method ResetGame(samples: seq<Cell>)
      requires FoodSamples(samples, InitialSnake())
      modifies this
      ensures Valid() && Scheduled()
      ensures snake == [Cell(10, 10), Cell(9, 10), Cell(8, 10)]
      ensures dir == Right && nextDir == Right
      ensures score == 0 && speed == INITIAL_SPEED
      ensures !running && timer == None
      ensures food == samples[FirstFreeIndex(samples, InitialSnake())]
    {
      snake := [];
      var cx := GRID_SIZE / 2;
      var cy := GRID_SIZE / 2;
      for i := 0 to 3
        invariant |snake| == i
        invariant forall k :: 0 <= k < i ==> snake[k] == Cell(cx - k, cy)
      {
        snake := snake + [Cell(cx - i, cy)];
      }
      assert snake == InitialSnake();
      dir := Right;
      nextDir := Right;
      score := 0;
      speed := INITIAL_SPEED;
      PlaceFood(samples);
      StopGame();
    }

    /** startGame: arms the timer at the current interval unless already running. */
    method StartGame()
      modifies this`running, this`timer
      ensures old(Valid()) ==> Valid()
      ensures old(running) ==> running && timer == old(timer)
      ensures !old(running) ==> running && timer == Some(speed)
      ensures old(Scheduled()) ==> Scheduled()
    {
      if running {
        return;
      }
      running := true;
      timer := Some(speed);
    }

    /** stopGame (the pause button): stops and clears the timer, whatever the state. */
    method StopGame()
      modifies this`running, this`timer
      ensures old(Valid()) ==> Valid()
      ensures !running && timer == None
      ensures Scheduled()
    {
      running := false;
      timer := None;
    }

    /** gameOver: only stops the game; the board is left as it was. */
    method GameOver()
      modifies this`running, this`timer
      ensures old(Valid()) ==> Valid()
      ensures !running && timer == None
      ensures Scheduled()
    {
      StopGame();
    }

    /**
     * move, one tick: take the queued direction, step the head with
     * wrap-around, end the game if the new head is on the body (the tail
     * cell included), and otherwise grow onto the food or slide forward.
     * `samples` are the cells placeFood would draw if food is eaten.
     */
    method Move(samples: seq<Cell>)
      requires Valid()
      requires EatsNext() ==> FoodSamples(samples, [food] + snake)
      modifies this
      ensures Valid()
      ensures dir == old(nextDir) && nextDir == old(nextDir)
      ensures old(running) && old(Scheduled()) ==> Scheduled()
      ensures var h := NextHead(old(snake)[0], old(nextDir));
              if h in old(snake) then
                snake == old(snake) && food == old(food) &&
                score == old(score) && speed == old(speed) &&
                !running && timer == None
              else if h == old(food) then
                snake == [h] + old(snake) &&
                food == samples[FirstFreeIndex(samples, snake)] &&
                score == old(score) + 1 && speed == NextSpeed(old(speed)) &&
                running == old(running) &&
                timer == (if old(speed) > SPEED_FLOOR then Some(speed) else old(timer))
              else
                snake == [h] + old(snake)[..|old(snake)| - 1] &&
                food == old(food) && score == old(score) && speed == old(speed) &&
                running == old(running) && timer == old(timer)
    {
      dir := nextDir;
      var head := snake[0];
      var newHead := NextHead(head, dir);
      if newHead in snake {
        GameOver();
        return;
      }
      StepKeepsDistinct(snake, newHead);
      snake := [newHead] + snake;
      if newHead == food {
        score := score + 1;
        PlaceFood(samples);
        if speed > SPEED_FLOOR {
          speed := speed - SPEED_STEP;
          timer := Some(speed);
        }
      } else {
        snake := snake[..|snake| - 1];
      }
    }

    /** The keydown handler: a bound key overwrites the queued direction; there is no reverse check. */
    method HandleKey(key: string)
      modifies this`nextDir
      ensures old(Valid()) ==> Valid()
      ensures nextDir == ApplyKey(old(nextDir), key)
    {
      var k := ToLower(key);
      if k == "arrowup" || k == "w" {
        nextDir := Up;
      }
      if k == "arrowdown" || k == "s" {
        nextDir := Down;
      }
      if k == "arrowleft" || k == "a" {
        nextDir := Left;
      }
      if k == "arrowright" || k == "d" {
        nextDir := Right;
      }
    }

    /** The restart button: resetGame, then startGame. */
    method Restart(samples: seq<Cell>)
      requires FoodSamples(samples, InitialSnake())
      modifies this
      ensures Valid() && Scheduled()
      ensures snake == InitialSnake() && dir == Right && nextDir == Right
      ensures score == 0 && speed == INITIAL_SPEED
      ensures running && timer == Some(INITIAL_SPEED)
      ensures food == samples[FirstFreeIndex(samples, InitialSnake())]
    {
      ResetGame(samples);
      StartGame();
    }
  }

  /**
   * With no reverse guard, pressing Left straight after a restart turns the
   * head back onto the second body cell and the first tick ends the game.
   */
  method ReverseOnFirstTick(samples: seq<Cell>) returns (g: SnakeGame)
    requires FoodSamples(samples, InitialSnake())
    ensures g.Valid() && !g.running && g.timer == None
    ensures g.snake == InitialSnake() && g.dir == Left && g.score == 0
  {
    g := new SnakeGame(samples);
    g.Restart(samples);
    g.HandleKey("ArrowLeft");
    LeftKeys();
    assert NextHead(g.snake[0], g.nextDir) == Cell(9, 10);
    g.Move(samples);
  }

  /**
   * Game over is not a separate state: after a collision the start button
   * resumes the same board, and the timer runs again at the same interval.
   */
  method ResumeAfterGameOver(samples: seq<Cell>) returns (g: SnakeGame)
    requires FoodSamples(samples, InitialSnake())
    ensures g.Valid() && g.Scheduled() && g.running
    ensures g.snake == InitialSnake() && g.score == 0 && g.timer == Some(INITIAL_SPEED)
  {
    g := new SnakeGame(samples);
    g.Restart(samples);
    g.HandleKey("a");
    LeftKeys();
    g.Move(samples);
    assert !g.running;
    g.StartGame();
  }
}
