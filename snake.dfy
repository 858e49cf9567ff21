/**
 * The one-cell mover of babySnake.py: a player square stepping on a 20-unit
 * grid in the direction the last arrow key chose, and a goal square that
 * jumps to a random place whenever the player overlaps it. A key press and
 * a firing of the update timer each become one method call; the values
 * random.randint would draw are parameters, and root.quit() becomes a flag.
 */
module Snake {
  const CANVAS_WIDTH: int := 400
  const CANVAS_HEIGHT: int := 400
  const SIZE: int := 20

  /** The `directions` table: the step each arrow key selects. */
  const DIRECTIONS: map<string, (int, int)> :=
    map["Left" := (-SIZE, 0), "Right" := (SIZE, 0), "Up" := (0, -SIZE), "Down" := (0, SIZE)]

  /** The values random.randint(0, CANVAS_WIDTH - SIZE) and its CANVAS_HEIGHT twin can draw. */
  predicate GoalRange(x: int, y: int) {
    0 <= x <= CANVAS_WIDTH - SIZE && 0 <= y <= CANVAS_HEIGHT - SIZE
  }

  /**
   * detect_collision on the two squares with top-left corners (x1, y1) and
   * (x2, y2): their SIZE-by-SIZE boxes overlap with positive area.
   */
  predicate Overlap(x1: int, y1: int, x2: int, y2: int) {
    x1 < x2 + SIZE && x1 + SIZE > x2 && y1 < y2 + SIZE && y1 + SIZE > y2
  }

  /**
   * The overlap test is strict and symmetric: two squares collide exactly
   * when their corners are less than SIZE apart on both axes, so squares
   * that only share an edge or a corner do not collide.
   */
  lemma OverlapMeaning(x1: int, y1: int, x2: int, y2: int)
    ensures Overlap(x1, y1, x2, y2) <==> -SIZE < x1 - x2 < SIZE && -SIZE < y1 - y2 < SIZE
    ensures Overlap(x1, y1, x2, y2) == Overlap(x2, y2, x1, y1)
    ensures x1 - x2 == SIZE || x2 - x1 == SIZE || y1 - y2 == SIZE || y2 - y1 == SIZE ==> !Overlap(x1, y1, x2, y2)
  {
  }

  /** A goal drawn by random_position lies with its whole square inside the canvas. */
  lemma GoalFits(x: int, y: int)
    requires GoalRange(x, y)
    ensures 0 <= x && x + SIZE <= CANVAS_WIDTH && 0 <= y && y + SIZE <= CANVAS_HEIGHT
  {
  }

  /** The out-of-bounds test of update_game: the player's corner has left the canvas. */
  predicate OutOfBounds(x: int, y: int) {
    !(0 <= x < CANVAS_WIDTH && 0 <= y < CANVAS_HEIGHT)
  }

  /** The whole state of the game between two events. */
  datatype SnakeState = SnakeState(
    playerX: int, playerY: int,
    goalX: int, goalY: int,
    directionX: int, directionY: int,
    quitting: bool)

  /** The state __init__ builds, with the goal random_position drew. */
  function Initial(goalX: int, goalY: int): SnakeState {
    SnakeState(0, 0, goalX, goalY, SIZE, 0, false)
  }

  /** handle_keypress: an arrow key picks its direction; Return asks to quit; any other key does nothing. */
  function Press(s: SnakeState, key: string): SnakeState {
    if key in DIRECTIONS then s.(directionX := DIRECTIONS[key].0, directionY := DIRECTIONS[key].1)
    else if key == "Return" then s.(quitting := true)
    else s
  }

  /**
   * update_game: the player steps by the direction; leaving the canvas asks
   * to quit, but quitting does not end the tick, so the collision check still
   * runs and, on an overlap, the goal moves to the freshly drawn place.
   */
  function Tick(s: SnakeState, newGoalX: int, newGoalY: int): SnakeState {
    var x, y := s.playerX + s.directionX, s.playerY + s.directionY;
    var hit := Overlap(x, y, s.goalX, s.goalY);
    s.(playerX := x, playerY := y,
       quitting := s.quitting || OutOfBounds(x, y),
       goalX := if hit then newGoalX else s.goalX,
       goalY := if hit then newGoalY else s.goalY)
  }

  /** The arithmetic invariant of the game: on the grid, stepping by a table vector, goal in range. */
  predicate OnGrid(s: SnakeState) {
    s.playerX % SIZE == 0 && s.playerY % SIZE == 0 &&
    (s.directionX, s.directionY) in DIRECTIONS.Values &&
    GoalRange(s.goalX, s.goalY)
  }

  /** The initial state is on the grid: player at (0, 0) heading right. */
  lemma InitialOnGrid(goalX: int, goalY: int)
    requires GoalRange(goalX, goalY)
    ensures OnGrid(Initial(goalX, goalY))
    ensures Initial(goalX, goalY).playerX == 0 && Initial(goalX, goalY).playerY == 0
    ensures (Initial(goalX, goalY).directionX, Initial(goalX, goalY).directionY) == DIRECTIONS["Right"]
  {
    assert DIRECTIONS["Right"] == (SIZE, 0);
  }

  /**
   * A key press sets the direction to the key's table vector, asks to quit
   * on Return, and changes nothing else; other keys change nothing at all.
   */
  lemma PressEffect(s: SnakeState, key: string)
    ensures key in DIRECTIONS ==>
              Press(s, key) == s.(directionX := DIRECTIONS[key].0, directionY := DIRECTIONS[key].1)
    ensures key == "Left" ==> (Press(s, key).directionX, Press(s, key).directionY) == (-20, 0)
    ensures key == "Right" ==> (Press(s, key).directionX, Press(s, key).directionY) == (20, 0)
    ensures key == "Up" ==> (Press(s, key).directionX, Press(s, key).directionY) == (0, -20)
    ensures key == "Down" ==> (Press(s, key).directionX, Press(s, key).directionY) == (0, 20)
    ensures key == "Return" ==> Press(s, key) == s.(quitting := true)
    ensures key !in DIRECTIONS && key != "Return" ==> Press(s, key) == s
  {
  }

  /** Every table vector moves exactly one cell along one axis. */
  lemma DirectionsAreCellSteps(d: (int, int))
    requires d in DIRECTIONS.Values
    ensures d.0 % SIZE == 0 && d.1 % SIZE == 0
    ensures (d.0 == 0 || d.1 == 0) && (d.0 == SIZE || d.0 == -SIZE || d.1 == SIZE || d.1 == -SIZE)
  {
    var k :| k in DIRECTIONS && DIRECTIONS[k] == d;
  }

  /**
   * One tick: the player moves by exactly the direction, game over is
   * signalled iff the new corner is off the canvas, and the goal moves iff
   * the new player square overlaps the old goal, to the drawn place.
   */
  lemma TickEffect(s: SnakeState, newGoalX: int, newGoalY: int)
    ensures var t := Tick(s, newGoalX, newGoalY);
            t.playerX - s.playerX == s.directionX && t.playerY - s.playerY == s.directionY &&
            t.directionX == s.directionX && t.directionY == s.directionY &&
            (t.quitting <==> s.quitting || t.playerX < 0 || t.playerX >= 400 || t.playerY < 0 || t.playerY >= 400) &&
            (Overlap(t.playerX, t.playerY, s.goalX, s.goalY) ==> t.goalX == newGoalX && t.goalY == newGoalY) &&
            (!Overlap(t.playerX, t.playerY, s.goalX, s.goalY) ==> t.goalX == s.goalX && t.goalY == s.goalY)
  {
  }

  /** The goal moves only on a tick whose new player square overlaps it. */
  lemma GoalMovesOnlyOnCollision(s: SnakeState, newGoalX: int, newGoalY: int)
    requires (Tick(s, newGoalX, newGoalY).goalX, Tick(s, newGoalX, newGoalY).goalY) != (s.goalX, s.goalY)
    ensures Overlap(s.playerX + s.directionX, s.playerY + s.directionY, s.goalX, s.goalY)
  {
  }

  /** A tick keeps the state on the grid when the drawn goal is in range. */
  lemma TickOnGrid(s: SnakeState, newGoalX: int, newGoalY: int)
    requires OnGrid(s) && GoalRange(newGoalX, newGoalY)
    ensures OnGrid(Tick(s, newGoalX, newGoalY))
  {
    DirectionsAreCellSteps((s.directionX, s.directionY));
  }

  /** A key press keeps the state on the grid. */
  lemma PressOnGrid(s: SnakeState, key: string)
    requires OnGrid(s)
    ensures OnGrid(Press(s, key))
  {
  }

  /** What the GUI's event loop delivers: a key press or a firing of the update timer with its random draw. */
  datatype Event = KeyPress(key: string) | Timer(goalX: int, goalY: int)

  /** All random draws in the events are values random_position can produce. */
  predicate DrawsInRange(events: seq<Event>) {
    forall k :: 0 <= k < |events| && events[k].Timer? ==> GoalRange(events[k].goalX, events[k].goalY)
  }

  /** The state after a sequence of events. */
  function Run(s: SnakeState, events: seq<Event>): SnakeState
    decreases |events|
  {
    if events == [] then s
    else
      var next := match events[0]
        case KeyPress(key) => Press(s, key)
        case Timer(gx, gy) => Tick(s, gx, gy);
      Run(next, events[1..])
  }

  /**
   * Whatever keys are pressed and however many ticks pass, the player's
   * coordinates stay multiples of 20 and the goal stays inside the canvas.
   */
  lemma {:induction false} RunOnGrid(s: SnakeState, events: seq<Event>)
    requires OnGrid(s) && DrawsInRange(events)
    ensures OnGrid(Run(s, events))
    ensures Run(s, events).playerX % 20 == 0 && Run(s, events).playerY % 20 == 0
    ensures 0 <= Run(s, events).goalX <= 380 && 0 <= Run(s, events).goalY <= 380
    decreases |events|
  {
    if events != [] {
      var next := match events[0]
        case KeyPress(key) => Press(s, key)
        case Timer(gx, gy) => Tick(s, gx, gy);
      match events[0] {
        case KeyPress(key) => PressOnGrid(s, key);
        case Timer(gx, gy) => TickOnGrid(s, gx, gy);
      }
      assert DrawsInRange(events[1..]) by {
        forall k | 0 <= k < |events| - 1 && events[1..][k].Timer?
          ensures GoalRange(events[1..][k].goalX, events[1..][k].goalY)
        {
          assert events[1..][k] == events[k + 1];
        }
      }
      RunOnGrid(next, events[1..]);
    }
  }

  /** The Game object: the player and goal corners and the direction, updated in place. */
  class Game {
    var playerX: int
    var playerY: int
    var goalX: int
    var goalY: int
    var directionX: int
    var directionY: int
    /** Whether root.quit() has been called. */
    var quitting: bool

    /** The fields as one value. */
    function State(): SnakeState
      reads this
    {
      SnakeState(playerX, playerY, goalX, goalY, directionX, directionY, quitting)
    }

    /** __init__ with the goal random_position drew, before its first update_game call. */
    constructor (goalX0: int, goalY0: int)
      requires GoalRange(goalX0, goalY0)
      ensures State() == Initial(goalX0, goalY0)
      ensures OnGrid(State())
    {
      playerX, playerY := 0, 0;
      goalX, goalY := goalX0, goalY0;
      directionX, directionY := SIZE, 0;
      quitting := false;
      new;
      InitialOnGrid(goalX0, goalY0);
    }

    /** detect_collision on the current player and goal squares. */
    predicate DetectCollision()
      reads this
    {
      Overlap(playerX, playerY, goalX, goalY)
    }

    /** handle_keypress with the key's keysym. */
    method HandleKeypress(key: string)
      modifies this
      ensures State() == Press(old(State()), key)
    {
      if key in DIRECTIONS {
        directionX, directionY := DIRECTIONS[key].0, DIRECTIONS[key].1;
      } else if key == "Return" {
        quitting := true;
      }
    }

    /**
     * update_game with the values random_position would draw if the goal is
     * hit; gameOver says whether "Game over!" was printed.
     */
    method UpdateGame(newGoalX: int, newGoalY: int) returns (gameOver: bool)
      requires GoalRange(newGoalX, newGoalY)
      modifies this
      ensures State() == Tick(old(State()), newGoalX, newGoalY)
      ensures gameOver <==> OutOfBounds(playerX, playerY)
      ensures OnGrid(old(State())) ==> OnGrid(State())
    {
      ghost var s := State();
      playerX := playerX + directionX;
      playerY := playerY + directionY;
      gameOver := !(0 <= playerX < CANVAS_WIDTH && 0 <= playerY < CANVAS_HEIGHT);
      if gameOver {
        quitting := true;
      }
      if DetectCollision() {
        goalX, goalY := newGoalX, newGoalY;
      }
      if OnGrid(s) {
        TickOnGrid(s, newGoalX, newGoalY);
      }
    }
  }
}
