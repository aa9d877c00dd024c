/**
 * The pure rules of the Snake game in script.js: grid cells and directions,
 * the wrap-around step of the head, the key bindings, the rejection-sampling
 * choice of a food cell and the speed-up schedule.  The mutable game state
 * that uses them lives in module SnakeEngine.
 */
module SnakeRules {

  /** Number of cells along each side of the square board. */
  const GRID_SIZE: int := 20
  /** Tick interval (milliseconds) of a fresh game. */
  const INITIAL_SPEED: int := 200
  /** A tick interval at or below this value is no longer shortened. */
  const SPEED_FLOOR: int := 60
  /** How much one eaten food shortens the tick interval. */
  const SPEED_STEP: int := 10

  datatype Option<T> = None | Some(value: T)

  /** A board position: column x, row y (row 0 is the top row). */
  datatype Cell = Cell(x: int, y: int)

  /** A heading, added to the head's coordinates on every tick. */
  datatype Dir = Dir(x: int, y: int)

  const Up: Dir := Dir(0, -1)
  const Down: Dir := Dir(0, 1)
  const Left: Dir := Dir(-1, 0)
  const Right: Dir := Dir(1, 0)

  predicate IsUnit(d: Dir) {
    d == Up || d == Down || d == Left || d == Right
  }

  predicate InBounds(c: Cell) {
    0 <= c.x < GRID_SIZE && 0 <= c.y < GRID_SIZE
  }

  predicate AllInBounds(s: seq<Cell>) {
    forall i :: 0 <= i < |s| ==> InBounds(s[i])
  }

  /** No cell occurs twice in the sequence. */
  predicate Distinct(s: seq<Cell>) {
    forall i, j :: 0 <= i < j < |s| ==> s[i] != s[j]
  }

  // ---------------------------------------------------------------------
  // Movement
  // ---------------------------------------------------------------------

  /**
   * The edge rule of move(): a coordinate that fell off the low edge
   * re-enters at the high edge and vice versa.  For the coordinates a unit
   * step can produce this is arithmetic modulo GRID_SIZE.
   */
  function Wrap(v: int): (r: int)
    ensures 0 <= r < GRID_SIZE
    ensures -1 <= v <= GRID_SIZE ==> r == v % GRID_SIZE
  {
    if v < 0 then GRID_SIZE - 1
    else if v >= GRID_SIZE then 0
    else v
  }

  /** The head position after one tick in direction d. */
  function NextHead(head: Cell, d: Dir): (r: Cell)
    ensures InBounds(r)
    ensures InBounds(head) && IsUnit(d) ==>
              r == Cell((head.x + d.x) % GRID_SIZE, (head.y + d.y) % GRID_SIZE)
  {
    Cell(Wrap(head.x + d.x), Wrap(head.y + d.y))
  }

  /** Stepping off any edge re-enters the board at the opposite edge, in the same row or column. */
  lemma NextHeadCrossesEdges(head: Cell)
    requires InBounds(head)
    ensures head.x == GRID_SIZE - 1 ==> NextHead(head, Right) == Cell(0, head.y)
    ensures head.x == 0 ==> NextHead(head, Left) == Cell(GRID_SIZE - 1, head.y)
    ensures head.y == GRID_SIZE - 1 ==> NextHead(head, Down) == Cell(head.x, 0)
    ensures head.y == 0 ==> NextHead(head, Up) == Cell(head.x, GRID_SIZE - 1)
  {
  }

  /**
   * A unit step never leaves the head where it was and, stepped back, returns
   * it: on the wrapping board every unit direction is a bijection.
   */
  lemma StepIsUndoneByReverse(head: Cell, d: Dir)
    requires InBounds(head) && IsUnit(d)
    ensures NextHead(head, d) != head
    ensures NextHead(NextHead(head, d), Dir(-d.x, -d.y)) == head
  {
  }

  /**
   * Taking one step into the body: when a snake lies straight behind its
   * head, turning round onto the cell behind the head is a self-collision,
   * because move() has no reverse-direction guard.
   */
  lemma ReverseHitsNeck(snake: seq<Cell>, d: Dir)
    requires |snake| >= 2 && InBounds(snake[1]) && IsUnit(d)
    requires NextHead(snake[1], d) == snake[0]
    ensures NextHead(snake[0], Dir(-d.x, -d.y)) == snake[1]
  {
  }

  /**
   * The snake as move() builds it when it does not collide: the new head in
   * front, and either the whole old body (eating) or the body without its
   * tail cell.  Prepending fresh cells keeps the body free of repeats.
   */
  lemma StepKeepsDistinct(snake: seq<Cell>, h: Cell)
    requires |snake| >= 1 && Distinct(snake) && h !in snake
    ensures Distinct([h] + snake)
    ensures Distinct([h] + snake[..|snake| - 1])
  {
  }

  /**
   * Moving into the cell the tail is about to leave ends the game in
   * script.js: the collision test runs against the whole old body, so a
   * snake chasing its own tail dies although the move would have left the
   * body free of repeats.
   */
  lemma ChasingTheTailCollides()
    ensures var snake := [Cell(1, 0), Cell(1, 1), Cell(0, 1), Cell(0, 0)];
            var h := NextHead(snake[0], Left);
            h == snake[|snake| - 1] && h in snake &&
            Distinct([h] + snake[..|snake| - 1])
  {
  }

  /** The three-cell snake every game starts with: head at the centre, facing right. */
  function InitialSnake(): (s: seq<Cell>)
    ensures |s| == 3 && AllInBounds(s) && Distinct(s)
    ensures forall i :: 0 <= i < |s| ==> s[i] == Cell(GRID_SIZE / 2 - i, GRID_SIZE / 2)
  {
    [Cell(10, 10), Cell(9, 10), Cell(8, 10)]
  }

  // ---------------------------------------------------------------------
  // Keys
  // ---------------------------------------------------------------------

  /** String.toLowerCase on the ASCII letters, the only ones the bindings use. */
  function LowerChar(c: char): (r: char)
    ensures 'A' <= c <= 'Z' ==> 'a' <= r <= 'z' && r as int - c as int == 32
    ensures !('A' <= c <= 'Z') ==> r == c
  {
    if 'A' <= c <= 'Z' then (c as int + 32) as char else c
  }

  function ToLower(s: string): (r: string)
    ensures |r| == |s|
    ensures forall i :: 0 <= i < |s| ==> r[i] == LowerChar(s[i])
  {
    if s == [] then [] else [LowerChar(s[0])] + ToLower(s[1..])
  }

  lemma ToLowerIdempotent(s: string)
    ensures ToLower(ToLower(s)) == ToLower(s)
  {
  }

  /**
   * The direction a keydown event asks for, or None for keys the handler
   * ignores: the arrow keys and W, A, S, D in either case.
   */
  function KeyDir(key: string): (r: Option<Dir>)
    ensures r.Some? ==> IsUnit(r.value)
  {
    var k := ToLower(key);
    if k == "arrowright" || k == "d" then Some(Right)
    else if k == "arrowleft" || k == "a" then Some(Left)
    else if k == "arrowdown" || k == "s" then Some(Down)
    else if k == "arrowup" || k == "w" then Some(Up)
    else None
  }

  /** Exactly the eight names of the handler are bound; every other key is ignored. */
  lemma BoundKeys(key: string)
    ensures KeyDir(key).Some? <==>
            ToLower(key) in {"arrowup", "w", "arrowdown", "s", "arrowleft", "a", "arrowright", "d"}
  {
  }

  /** The bindings as the handler lists them, one direction at a time. */
  lemma UpKeys()
    ensures KeyDir("ArrowUp") == Some(Up) && KeyDir("w") == Some(Up) && KeyDir("W") == Some(Up)
  {
    assert ToLower("ArrowUp") == "arrowup";
  }

  lemma DownKeys()
    ensures KeyDir("ArrowDown") == Some(Down) && KeyDir("s") == Some(Down) && KeyDir("S") == Some(Down)
  {
    assert ToLower("ArrowDown") == "arrowdown";
  }

  lemma LeftKeys()
    ensures KeyDir("ArrowLeft") == Some(Left) && KeyDir("a") == Some(Left) && KeyDir("A") == Some(Left)
  {
    assert ToLower("ArrowLeft") == "arrowleft";
  }

  lemma RightKeys()
    ensures KeyDir("ArrowRight") == Some(Right) && KeyDir("d") == Some(Right) && KeyDir("D") == Some(Right)
  {
    assert ToLower("ArrowRight") == "arrowright";
  }

  /** The binding does not depend on letter case. */
  lemma KeyDirIgnoresCase(key: string)
    ensures KeyDir(key) == KeyDir(ToLower(key))
  {
  }

  /** What one keydown event does to the queued direction. */
  function ApplyKey(queued: Dir, key: string): (r: Dir)
    ensures KeyDir(key).Some? ==> r == KeyDir(key).value
    ensures KeyDir(key).None? ==> r == queued
  {
    match KeyDir(key)
    case Some(d) => d
    case None => queued
  }

  /** The queued direction after a burst of keydown events, in order. */
  function AfterKeys(queued: Dir, keys: seq<string>): (r: Dir)
    decreases |keys|
  {
    if keys == [] then queued else AfterKeys(ApplyKey(queued, keys[0]), keys[1..])
  }

  /**
   * The last bound key before a tick decides the direction of that tick;
   * keys that are not bound leave the queue alone.
   */
  lemma {:induction false} LastKeyWins(queued: Dir, keys: seq<string>)
    ensures (forall i :: 0 <= i < |keys| ==> KeyDir(keys[i]).None?) ==> AfterKeys(queued, keys) == queued
    ensures forall i :: 0 <= i < |keys| && KeyDir(keys[i]).Some? &&
                        (forall j :: i < j < |keys| ==> KeyDir(keys[j]).None?) ==>
              AfterKeys(queued, keys) == KeyDir(keys[i]).value
    decreases |keys|
  {
    if keys != [] {
      LastKeyWins(ApplyKey(queued, keys[0]), keys[1..]);
      var rest := keys[1..];
      forall i | 0 <= i < |keys| && KeyDir(keys[i]).Some? &&
                 (forall j :: i < j < |keys| ==> KeyDir(keys[j]).None?)
        ensures AfterKeys(queued, keys) == KeyDir(keys[i]).value
      {
        if i > 0 {
          assert rest[i - 1] == keys[i];
          assert forall j :: i - 1 < j < |rest| ==> KeyDir(rest[j]).None? by {
            forall j | i - 1 < j < |rest| ensures KeyDir(rest[j]).None? {
              assert rest[j] == keys[j + 1];
            }
          }
        } else {
          assert forall j :: 0 <= j < |rest| ==> KeyDir(rest[j]).None? by {
            forall j | 0 <= j < |rest| ensures KeyDir(rest[j]).None? {
              assert rest[j] == keys[j + 1];
            }
          }
        }
      }
      if forall i :: 0 <= i < |keys| ==> KeyDir(keys[i]).None? {
        assert forall j :: 0 <= j < |rest| ==> KeyDir(rest[j]).None? by {
          forall j | 0 <= j < |rest| ensures KeyDir(rest[j]).None? {
            assert rest[j] == keys[j + 1];
          }
        }
      }
    }
  }

  // ---------------------------------------------------------------------
  // Food placement
  // ---------------------------------------------------------------------

  /**
   * The cells placeFood() would draw with Math.random, in drawing order:
   * every draw lies on the board, and some draw misses the snake.  On a full
   * board no draw can miss, and the source loops for ever.
   */
  predicate FoodSamples(samples: seq<Cell>, snake: seq<Cell>) {
    AllInBounds(samples) && exists i :: 0 <= i < |samples| && samples[i] !in snake
  }

  lemma FoodSamplesTail(samples: seq<Cell>, snake: seq<Cell>)
    requires FoodSamples(samples, snake) && samples[0] in snake
    ensures FoodSamples(samples[1..], snake)
  {
    var i :| 0 <= i < |samples| && samples[i] !in snake;
    assert samples[1..][i - 1] == samples[i];
  }

  /** The position of the first draw that misses the snake: where the retry loop stops. */
  function FirstFreeIndex(samples: seq<Cell>, snake: seq<Cell>): (k: nat)
    requires FoodSamples(samples, snake)
    ensures k < |samples| && samples[k] !in snake
    ensures forall j :: 0 <= j < k ==> samples[j] in snake
    decreases |samples|
  {
    if samples[0] !in snake then 0
    else
      FoodSamplesTail(samples, snake);
      1 + FirstFreeIndex(samples[1..], snake)
  }

  /** The do/while loop of placeFood(): draw until a cell off the snake comes up. */
  method SampleFreeCell(samples: seq<Cell>, snake: seq<Cell>) returns (c: Cell)
    requires FoodSamples(samples, snake)
    ensures InBounds(c) && c !in snake
    ensures c == samples[FirstFreeIndex(samples, snake)]
  {
    var i := 0;
    c := samples[i];
    while c in snake
      invariant 0 <= i < |samples|
      invariant i <= FirstFreeIndex(samples, snake)
      invariant c == samples[i]
      decreases FirstFreeIndex(samples, snake) - i
    {
      i := i + 1;
      c := samples[i];
    }
  }

  // ---------------------------------------------------------------------
  // Speed
  // ---------------------------------------------------------------------

  /** The speed-up applied when food is eaten: ten milliseconds off while above the floor. */
  function NextSpeed(speed: int): (r: int)
    ensures r <= speed && speed - r <= SPEED_STEP
    ensures r == speed <==> speed <= SPEED_FLOOR
    ensures speed >= SPEED_FLOOR && (speed - SPEED_FLOOR) % SPEED_STEP == 0 ==>
              r >= SPEED_FLOOR && (r - SPEED_FLOOR) % SPEED_STEP == 0
  {
    if speed > SPEED_FLOOR then speed - SPEED_STEP else speed
  }

  /** The tick interval after `eaten` foods in one game. */
  function SpeedAfter(eaten: nat): (r: int)
    ensures r == if INITIAL_SPEED - SPEED_STEP * eaten > SPEED_FLOOR
                 then INITIAL_SPEED - SPEED_STEP * eaten else SPEED_FLOOR
  {
    if eaten == 0 then INITIAL_SPEED else NextSpeed(SpeedAfter(eaten - 1))
  }

  /** Within one game the interval never grows and never drops below the floor. */
  lemma SpeedMonotone(m: nat, n: nat)
    requires m <= n
    ensures SPEED_FLOOR <= SpeedAfter(n) <= SpeedAfter(m) <= INITIAL_SPEED
  {
  }
}
