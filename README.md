# Snake engine of script.js, in Dafny

This project models the game core of the 3D Snake game in `script.js`. The
board is a 20 x 20 grid that wraps at its edges. The snake is a list of
cells, head first. A tick (`move`) does four things in order:

- it commits the queued direction;
- it steps the head, re-entering at the opposite edge when it falls off;
- it ends the game if the new head lands on the body;
- otherwise it either eats the food (grow, score +1, new food, faster ticks) or slides forward by dropping the tail.

Two modules:

- `SnakeRules` (`rules.dfy`) holds the pure rules:
  - cells, directions and the wrap-around step;
  - the key bindings of the keydown handler;
  - the rejection-sampling loop of `placeFood`;
  - the speed-up schedule.
- `SnakeEngine` (`engine.dfy`) holds class `SnakeGame`. Its fields are the
  module-level variables of the script (`snake`, `dir`, `nextDir`, `food`,
  `score`, `speed`, `running`) plus `timer`, the period the `setInterval`
  timer is armed with (`None` once it is cleared). Its methods are the
  script's functions.

`SnakeGame.Valid()` is the invariant of the game. The constructor, `ResetGame` and `Restart` establish it; `Move` preserves it; `PlaceFood`, `StartGame`, `StopGame`, `GameOver` and `HandleKey` keep it when it held before the call (`PlaceFood` also runs inside `Move`, where it does not yet hold). It says:

- the body lies on the board;
- the body has no repeated cell;
- the food lies on the board, off the body;
- `dir` and `nextDir` are unit steps;
- the length is `3 + score`;
- the interval is `SpeedAfter(score)`, that is `max(60, 200 - 10 * score)`.

So within a game the score only grows, the interval only shrinks, and the
interval never drops below 60. `Scheduled()` says that the timer is armed
exactly while the game runs, at the current interval. Every method keeps it
when it is called during a running game.

Randomness: `placeFood` draws `Math.random` cells until one is off the snake.
The model receives that stream of draws as a parameter, `samples`. The retry
loop stops at `samples[FirstFreeIndex(samples, snake)]`. The caller must
supply draws that lie on the board, at least one of them off the snake
(`FoodSamples`). On a full board no such draw exists, and the script's loop
never ends.

Behaviour of `script.js` that the model keeps as written:

- the board always wraps; there is no wall-collision mode;
- there is no reverse-direction guard, so turning back onto the neck ends
  the game on the next tick (`ReverseHitsNeck`, `ReverseOnFirstTick`);
- the collision test includes the tail cell that the move would free
  (`ChasingTheTailCollides`);
- there are no Ready/Paused/GameOver states, only `running`. Game over just
  stops the timer, and Start resumes the same board (`ResumeAfterGameOver`);
- every food eaten speeds the game up by 10 ms while the interval is above 60;
- food placement has no bounded-attempts fallback.

## Model

| member | source | states |
|---|---|---|
| SnakeRules.Wrap | script.js:123-127 | the edge rule always gives a coordinate in [0, 20); for the values a unit step can produce (-1 to 20) it equals the coordinate modulo 20 |
| SnakeRules.NextHead | script.js:119-127 | the new head is always on the board; from an on-board head with a unit direction it is the head plus the direction, taken modulo 20 per coordinate |
| SnakeRules.NextHeadCrossesEdges | script.js:123-127 | stepping off the right, left, bottom or top edge re-enters at the opposite edge in the same row or column |
| SnakeRules.StepIsUndoneByReverse | script.js:119-127 | a unit step always moves the head, and the opposite step brings it back |
| SnakeRules.ReverseHitsNeck | script.js:118-130 | with no reverse guard, the reversed step from the head lands on the second body cell, so the collision test fires |
| SnakeRules.StepKeepsDistinct | script.js:130-156 | when the new head is off the body, both the grown body and the body without its tail have no repeated cell |
| SnakeRules.ChasingTheTailCollides | script.js:130 | a 4-cell snake moving onto its own tail cell is caught by the collision test, although the slid body would have no repeats |
| SnakeRules.InitialSnake | script.js:75-85 | the starting body has 3 cells, all on the board, no repeats, with cell i at (10 - i, 10) |
| SnakeRules.LowerChar | script.js:165 | maps an ASCII upper-case letter to its lower-case letter and leaves every other character alone |
| SnakeRules.ToLower | script.js:165 | the lowered key has the same length as the key and is lowered character by character |
| SnakeRules.ToLowerIdempotent | script.js:165 | lowering twice gives the same result as lowering once |
| SnakeRules.KeyDir | script.js:164-169 | a key that is bound yields a unit direction |
| SnakeRules.BoundKeys | script.js:164-169 | a key is bound exactly when its lower-cased form is one of arrowup, w, arrowdown, s, arrowleft, a, arrowright, d; every other key is ignored |
| SnakeRules.UpKeys | script.js:166 | ArrowUp, w and W ask for (0, -1) |
| SnakeRules.DownKeys | script.js:167 | ArrowDown, s and S ask for (0, 1) |
| SnakeRules.LeftKeys | script.js:168 | ArrowLeft, a and A ask for (-1, 0) |
| SnakeRules.RightKeys | script.js:169 | ArrowRight, d and D ask for (1, 0) |
| SnakeRules.KeyDirIgnoresCase | script.js:165-169 | a key and its lower-cased form are bound to the same direction |
| SnakeRules.ApplyKey | script.js:164-170 | a bound key replaces the queued direction, whatever it was; an unbound key keeps it |
| SnakeRules.LastKeyWins | script.js:164-170 | after a burst of keys, the queued direction is that of the last bound key; with no bound key it is unchanged |
| SnakeRules.FirstFreeIndex | script.js:59-63 | the index where the retry loop stops: that draw is off the snake, and every earlier draw is on it |
| SnakeRules.SampleFreeCell | script.js:59-63 | the do/while loop returns an on-board cell off the snake, namely the draw at FirstFreeIndex |
| SnakeRules.NextSpeed | script.js:147-151 | eating never raises the interval and lowers it by at most 10; it is unchanged exactly when the interval is at most 60; it keeps "at least 60 and a multiple of 10 above 60" |
| SnakeRules.SpeedAfter | script.js:144-151 | starting from the initial 200 (script.js line 6), after n foods the interval is max(60, 200 - 10n) |
| SnakeRules.SpeedMonotone | script.js:147-151 | over a game the interval never grows and stays between 60 and 200 |
| SnakeEngine.SnakeGame.constructor | script.js:39-46 | the module's initial values, then the load-time resetGame: the invariant holds and the state is the reset state |
| SnakeEngine.SnakeGame.PlaceFood | script.js:57-70 | the new food is on the board and off the snake, and it is the first draw that is off the snake; the invariant is kept |
| SnakeEngine.SnakeGame.ResetGame | script.js:72-94 | snake [(10,10),(9,10),(8,10)], dir = nextDir = (1,0), score 0, interval 200, stopped, food the first free draw; establishes the invariant |
| SnakeEngine.SnakeGame.StartGame | script.js:100-107 | when stopped, sets running and arms the timer at the current interval; when running, changes nothing; the invariant is kept |
| SnakeEngine.SnakeGame.StopGame | script.js:109-115 | running false and timer cleared whatever the previous state, so a second call changes nothing; the invariant is kept |
| SnakeEngine.SnakeGame.GameOver | script.js:159-162 | only stops the game: running false, timer cleared, board untouched; the invariant is kept |
| SnakeEngine.SnakeGame.Move | script.js:117-157 | dir becomes nextDir. On a collision with any body cell (tail included): snake, food, score and interval unchanged, game stopped. On eating: body grows by the new head, score +1, food is the first free draw, interval per NextSpeed, timer re-armed if it changed. Otherwise: new head in front, tail dropped, nothing else changes. The invariant is preserved |
| SnakeEngine.SnakeGame.HandleKey | script.js:164-170 | the queued direction becomes ApplyKey of the old one, with no check against the current direction; the invariant is kept |
| SnakeEngine.SnakeGame.Restart | script.js:174-177 | the reset state, running, timer armed at 200 |
| SnakeEngine.ReverseOnFirstTick | script.js:164-170 | after a restart, pressing ArrowLeft and ticking ends the game with the snake unchanged |
| SnakeEngine.ResumeAfterGameOver | script.js:100-107 | after that game over, Start runs the same board again at the same interval |

## Left out

- Rendering (THREE.js scene, meshes, materials, camera, lights, `gridToWorld`, `makeCube`, `onResize`, `render`): graphics and floating point, no game logic.
- DOM plumbing (`updateHUD`, the status and score text, the buttons' `disabled` flags): user interface only.
- `setInterval`/`clearInterval`: the model keeps only the period the timer is armed with (`timer`). The scheduler calls `Move` only while the timer is armed; the model describes each tick and does not schedule ticks.
- `Math.random`: replaced by the `samples` parameter. Its uniform distribution is not modelled. Non-termination of the retry loop on a full board is excluded by the `FoodSamples` precondition instead.
- SnakeRules.LowerChar: lower-cases only ASCII letters, not all of Unicode as `String.prototype.toLowerCase` does. For the bound key names this makes no difference. The only non-ASCII characters that lower-case into ASCII are the Kelvin sign, which becomes `k`, and the dotted capital I, which becomes `i` plus a combining dot. Neither can make a bound name.
- `food` is never `null` in the model. It is `null` only before the load-time `resetGame` and inside `move` just before `placeFood`, so the `food &&` guard of the eating test is always true.
- Number width: JavaScript numbers are doubles; coordinates, score and interval stay small integers here, so they are modelled as unbounded integers.
