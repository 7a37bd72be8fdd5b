/** The game rules as pure transitions on a value of the game state: one tick
    of the simulation, the input filter, the reset, the high-score update and
    the frame callback's pacing. The GameState class in game_state.dfy runs
    the same transitions in place and is proved against these functions. */
module Rules {
  import opened Grid
  import opened Body
  import opened Food

  /** CONFIG.TICK_INTERVAL: the tick interval of a fresh game, in ms. */
  const TICK_INTERVAL: int := 150
  /** CONFIG.INITIAL_LENGTH: the length of the snake built by a reset. */
  const INITIAL_LENGTH: nat := 3
  /** The tick interval never drops below MIN_SPEED ms ... */
  const MIN_SPEED: int := 50
  /** ... and drops by SPEED_STEP ms at every level-up ... */
  const SPEED_STEP: int := 15
  /** ... which happens whenever the score reaches a multiple of LEVEL_SIZE. */
  const LEVEL_SIZE: int := 10

  /** The fields of gameState. */
  datatype Snapshot = Snapshot(
    snake: seq<Pos>,          // head first
    direction: Direction,     // committed: the direction of the last step
    nextDirection: Direction, // pending: applied at the next tick
    food: Pos,
    score: nat,
    highScore: int,
    gameOver: bool,
    lastTick: int,            // timestamp of the last tick, in ms
    currentSpeed: int         // tick interval, in ms
  )

  /** What a tick reports to its audio and overlay collaborators. */
  datatype Event =
    | Skipped    // the game was already over: nothing happened
    | Moved      // one step without eating
    | Ate        // playEatSound
    | LeveledUp  // playLevelUpSound
    | Died       // playGameOverSound and the game-over overlay

  function Max(a: int, b: int): int {
    if a >= b then a else b
  }

  /** State invariant of every reachable game state. */
  predicate Inv(s: Snapshot) {
    && AllOnGrid(s.snake)
    && Distinct(s.snake)
    && OnGrid(s.food)
    && s.food !in s.snake
    && s.currentSpeed == SpeedForScore(s.score)
    && Opposite(s.nextDirection) != s.direction
    && ((s.snake == [] && s.score == 0) || |s.snake| == INITIAL_LENGTH + s.score)
  }

  /** The gameState record as the page loads it, before the first reset; the
      high score is whatever the persistent store held. */
  function Initial(storedHighScore: int): (s: Snapshot)
    ensures Inv(s) && s.snake == [] && !s.gameOver && s.highScore == storedHighScore
  {
    Snapshot([], Right, Right, Pos(0, 0), 0, storedHighScore, false, 0, TICK_INTERVAL)
  }

  // ---------------------------------------------------------------------
  // Speed progression and the high score

  /** The post-increment score completes a level. */
  predicate LevelUp(score: int) {
    score % LEVEL_SIZE == 0 && score > 0
  }

  /** The tick interval after eating, given the post-increment score. */
  function NextSpeed(score: int, speed: int): (r: int)
    ensures !LevelUp(score) ==> r == speed
    ensures speed >= MIN_SPEED ==> MIN_SPEED <= r <= speed
    ensures r < speed <==> LevelUp(score) && speed > MIN_SPEED
    ensures LevelUp(score) && speed >= MIN_SPEED + SPEED_STEP ==> r == speed - SPEED_STEP
    ensures LevelUp(score) && speed <= MIN_SPEED + SPEED_STEP ==> r == MIN_SPEED
  {
    if LevelUp(score) then Max(MIN_SPEED, speed - SPEED_STEP) else speed
  }

  /** Within one game the tick interval is determined by the score: one step
      down per completed level, floored at MIN_SPEED. */
  function SpeedForScore(score: nat): (r: int)
    ensures MIN_SPEED <= r <= TICK_INTERVAL
    ensures score < LEVEL_SIZE ==> r == TICK_INTERVAL
  {
    Max(MIN_SPEED, TICK_INTERVAL - SPEED_STEP * (score / LEVEL_SIZE))
  }

  /** Eating one food moves the interval from one score's value to the
      next one's. */
  lemma SpeedForNextScore(score: nat)
    ensures SpeedForScore(score + 1) == NextSpeed(score + 1, SpeedForScore(score))
  {
    if LevelUp(score + 1) {
      assert (score + 1) / LEVEL_SIZE == score / LEVEL_SIZE + 1;
    } else {
      assert (score + 1) / LEVEL_SIZE == score / LEVEL_SIZE;
    }
  }

  /** The high-score update of updateScoreDisplay: the high score becomes the
      larger of itself and the score; nothing else changes. */
  function RecordHighScore(s: Snapshot): (r: Snapshot)
    ensures r == s.(highScore := r.highScore)
    ensures r.highScore >= s.highScore && r.highScore >= s.score
    ensures r.highScore == s.highScore || r.highScore == s.score
  {
    if s.score > s.highScore then s.(highScore := s.score) else s
  }

  // ---------------------------------------------------------------------
  // tick

  /** The head cell the next tick moves to. */
  function PlannedHead(s: Snapshot): Pos
    requires |s.snake| > 0
  {
    NextHead(s.snake[0], s.nextDirection)
  }

  /** What tick needs to return: a body to read the head from (tick is never
      called before the first reset), and, when the snake eats, a drawn
      candidate that is free on the grown snake. */
  predicate TickEnabled(s: Snapshot, draws: Draws) {
    s.gameOver ||
    (|s.snake| > 0 &&
     (CheckSelfCollision(s.snake, PlannedHead(s)) || PlannedHead(s) != s.food ||
      FirstFree([PlannedHead(s)] + s.snake, draws).Some?))
  }

  /** tick: one step of the simulation. The pending direction is committed
      even when the step then ends the game. */
  function Tick(s: Snapshot, draws: Draws): Snapshot
    requires TickEnabled(s, draws)
  {
    if s.gameOver then s
    else
      var committed := s.(direction := s.nextDirection);
      var newHead := NextHead(s.snake[0], committed.direction);
      if CheckSelfCollision(s.snake, newHead) then committed.(gameOver := true)
      else Advance(committed, newHead, draws)
  }

  /** The rest of tick once the new head is known not to collide: prepend
      it, then either eat (score, new food, high score, speed rule) or drop
      the tail. */
  function Advance(s: Snapshot, newHead: Pos, draws: Draws): Snapshot
    requires newHead != s.food || FirstFree([newHead] + s.snake, draws).Some?
  {
    var grown := [newHead] + s.snake;
    if newHead == s.food then
      var fed := RecordHighScore(s.(snake := grown, score := s.score + 1,
                                    food := FirstFree(grown, draws).value));
      fed.(currentSpeed := NextSpeed(s.score + 1, s.currentSpeed))
    else
      s.(snake := grown[..|grown| - 1])
  }

  /** The sound (or overlay) a tick triggers. */
  function TickEvent(s: Snapshot): Event
    requires s.gameOver || |s.snake| > 0
  {
    if s.gameOver then Skipped
    else if CheckSelfCollision(s.snake, PlannedHead(s)) then Died
    else if PlannedHead(s) != s.food then Moved
    else if LevelUp(s.score + 1) then LeveledUp
    else Ate
  }

  /** A tick on a finished game does nothing. */
  lemma TickWhenOver(s: Snapshot, draws: Draws)
    requires s.gameOver
    ensures Tick(s, draws) == s && TickEvent(s) == Skipped
  {
  }

  /** A head landing on a segment of index >= 1 of the pre-move body ends the
      game; the pending direction has been committed, and the snake, score,
      food and speed stay as they were. */
  lemma TickOnCollision(s: Snapshot, draws: Draws)
    requires !s.gameOver && |s.snake| > 0
    requires exists i :: 1 <= i < |s.snake| && s.snake[i] == NextHead(s.snake[0], s.nextDirection)
    ensures Tick(s, draws) == s.(direction := s.nextDirection, gameOver := true)
    ensures TickEvent(s) == Died
  {
  }

  /** A step that does not reach the food moves the snake by one cell: the
      new head is prepended, the tail cell is dropped, the length and score
      stay. */
  lemma TickMove(s: Snapshot, draws: Draws)
    requires !s.gameOver && |s.snake| > 0
    requires forall i :: 1 <= i < |s.snake| ==> s.snake[i] != NextHead(s.snake[0], s.nextDirection)
    requires NextHead(s.snake[0], s.nextDirection) != s.food
    ensures var r := Tick(s, draws);
      && |r.snake| == |s.snake|
      && r.snake[0] == NextHead(s.snake[0], s.nextDirection)
      && r.snake[1..] == s.snake[..|s.snake| - 1]
      && r == s.(snake := r.snake, direction := s.nextDirection)
    ensures TickEvent(s) == Moved
  {
  }

  /** A step onto the food grows the snake by exactly one cell at the head,
      adds exactly one point, places new food off the grown snake, records
      the high score and applies the speed rule. */
  lemma TickEat(s: Snapshot, draws: Draws)
    requires !s.gameOver && |s.snake| > 0
    requires forall i :: 1 <= i < |s.snake| ==> s.snake[i] != NextHead(s.snake[0], s.nextDirection)
    requires NextHead(s.snake[0], s.nextDirection) == s.food
    requires FirstFree([s.food] + s.snake, draws).Some?
    ensures var r := Tick(s, draws);
      && r.snake == [s.food] + s.snake
      && |r.snake| == |s.snake| + 1
      && r.score == s.score + 1
      && OnGrid(r.food) && r.food !in r.snake
      && r.currentSpeed == NextSpeed(s.score + 1, s.currentSpeed)
      && r.highScore == Max(s.highScore, s.score + 1)
      && r.direction == s.nextDirection && r.nextDirection == s.nextDirection
      && !r.gameOver && r.lastTick == s.lastTick
    ensures TickEvent(s) == (if LevelUp(s.score + 1) then LeveledUp else Ate)
  {
  }

  /** The new head differs from every cell of the pre-move body. */
  lemma FreshHead(s: Snapshot)
    requires |s.snake| > 0 && OnGrid(s.snake[0])
    requires !CheckSelfCollision(s.snake, PlannedHead(s))
    ensures PlannedHead(s) !in s.snake
  {
    NextHeadMoves(s.snake[0], s.nextDirection);
  }

  /** A tick keeps every cell on the grid, the body free of overlaps, the
      food off the body, the interval in step with the score and the pending
      direction never opposite to the committed one. */
  lemma TickPreservesInv(s: Snapshot, draws: Draws)
    requires Inv(s) && TickEnabled(s, draws)
    ensures Inv(Tick(s, draws))
  {
    var r := Tick(s, draws);
    if !s.gameOver {
      var h := PlannedHead(s);
      OppositeInvolution(s.nextDirection);
      if !CheckSelfCollision(s.snake, h) {
        FreshHead(s);
        var grown := [h] + s.snake;
        assert Distinct(grown) by {
          forall i, j | 0 <= i < j < |grown| ensures grown[i] != grown[j] {
            if i == 0 { assert grown[j] == s.snake[j - 1]; }
          }
        }
        if h == s.food {
          SpeedForNextScore(s.score);
        } else {
          assert r.snake == grown[..|grown| - 1];
          assert s.food !in r.snake by {
            forall i | 0 <= i < |r.snake| ensures r.snake[i] != s.food {
              if i > 0 { assert r.snake[i] == s.snake[i - 1]; }
            }
          }
        }
      }
    }
  }

  /** Within a game, a tick never lowers the score, length or high score,
      never raises the interval, and never revives a finished game. */
  lemma TickMonotone(s: Snapshot, draws: Draws)
    requires TickEnabled(s, draws)
    ensures var r := Tick(s, draws);
      && r.score >= s.score && |r.snake| >= |s.snake| && r.highScore >= s.highScore
      && (s.currentSpeed >= MIN_SPEED ==> MIN_SPEED <= r.currentSpeed <= s.currentSpeed)
      && (s.gameOver ==> r.gameOver)
      && r.score <= s.score + 1 && |r.snake| <= |s.snake| + 1
  {
  }

  // ---------------------------------------------------------------------
  // setDirection

  /** setDirection: bank a direction for the next tick unless the game is
      over or it reverses the committed (not the pending) direction. */
  function SetDirection(s: Snapshot, d: Direction): Snapshot {
    if !s.gameOver && Opposite(d) != s.direction then s.(nextDirection := d) else s
  }

  /** Only the pending direction can change, and it becomes d exactly when
      the game runs and d is not the reverse of the committed direction. */
  lemma SetDirectionSpec(s: Snapshot, d: Direction)
    ensures var r := SetDirection(s, d);
      && r == s.(nextDirection := r.nextDirection)
      && (!s.gameOver && Opposite(d) != s.direction ==> r.nextDirection == d)
      && (s.gameOver || Opposite(d) == s.direction ==> r == s)
  {
  }

  /** Reversing the committed direction is always rejected. */
  lemma ReverseRejected(s: Snapshot)
    ensures SetDirection(s, Opposite(s.direction)) == s
  {
    OppositeInvolution(s.direction);
  }

  /** Several inputs between two ticks: the last accepted one wins. */
  lemma LastInputWins(s: Snapshot, d1: Direction, d2: Direction)
    requires !s.gameOver && Opposite(d2) != s.direction
    ensures SetDirection(SetDirection(s, d1), d2) == s.(nextDirection := d2)
  {
  }

  lemma SetDirectionPreservesInv(s: Snapshot, d: Direction)
    requires Inv(s)
    ensures Inv(SetDirection(s, d))
  {
  }

  // ---------------------------------------------------------------------
  // resetGame

  /** The body built by resetGame: three cells ending at the grid centre,
      facing right. */
  function InitialSnake(): (snake: seq<Pos>)
    ensures snake == [Pos(12, 12), Pos(11, 12), Pos(10, 12)]
    ensures |snake| == INITIAL_LENGTH && AllOnGrid(snake) && Distinct(snake)
  {
    var cx, cy := GRID_SIZE / 2, GRID_SIZE / 2;
    [Pos(cx, cy), Pos(cx - 1, cy), Pos(cx - 2, cy)]
  }

  /** resetGame: a fresh running game; only the high score survives, and it
      is updated against the new score of 0. lastTick is the clock reading
      `now`. */
  function Reset(s: Snapshot, now: int, draws: Draws): Snapshot
    requires FirstFree(InitialSnake(), draws).Some?
  {
    RecordHighScore(Snapshot(InitialSnake(), Right, Right, FirstFree(InitialSnake(), draws).value,
                             0, s.highScore, false, now, TICK_INTERVAL))
  }

  /** The state after a reset, whatever the state before. */
  lemma ResetState(s: Snapshot, now: int, draws: Draws)
    requires FirstFree(InitialSnake(), draws).Some?
    ensures var r := Reset(s, now, draws);
      && r.snake == [Pos(12, 12), Pos(11, 12), Pos(10, 12)]
      && r.direction == Right && r.nextDirection == Right
      && r.score == 0 && !r.gameOver && r.currentSpeed == TICK_INTERVAL && r.lastTick == now
      && OnGrid(r.food) && r.food !in r.snake
      && r.highScore == Max(s.highScore, 0)
  {
  }

  /** Two resets with the same clock reading and random values agree on
      everything but the high score. */
  lemma ResetForgetsPriorState(s1: Snapshot, s2: Snapshot, now: int, draws: Draws)
    requires FirstFree(InitialSnake(), draws).Some?
    ensures Reset(s1, now, draws).(highScore := 0) == Reset(s2, now, draws).(highScore := 0)
  {
  }

  /** A reset establishes the invariant from any state at all. */
  lemma ResetEstablishesInv(s: Snapshot, now: int, draws: Draws)
    requires FirstFree(InitialSnake(), draws).Some?
    ensures Inv(Reset(s, now, draws))
  {
  }

  // ---------------------------------------------------------------------
  // gameLoop

  /** The frame callback ticks when a full interval has passed since the last
      tick and the game runs. */
  predicate FrameDue(s: Snapshot, timestamp: int) {
    timestamp - s.lastTick >= s.currentSpeed && !s.gameOver
  }

  /** gameLoop without rendering and rescheduling. */
  function Frame(s: Snapshot, timestamp: int, draws: Draws): Snapshot
    requires FrameDue(s, timestamp) ==> TickEnabled(s, draws)
  {
    if FrameDue(s, timestamp) then Tick(s, draws).(lastTick := timestamp) else s
  }

  /** A frame performs at most one tick, only when due, and moves lastTick
      to the frame's timestamp exactly when it ticks. */
  lemma FramePacing(s: Snapshot, timestamp: int, draws: Draws)
    requires FrameDue(s, timestamp) ==> TickEnabled(s, draws)
    ensures var r := Frame(s, timestamp, draws);
      && (FrameDue(s, timestamp) ==> r == Tick(s, draws).(lastTick := timestamp))
      && (!FrameDue(s, timestamp) ==> r == s)
      && (r.lastTick != s.lastTick ==> FrameDue(s, timestamp) && r.lastTick == timestamp)
  {
  }

  /** After a tick at time t, no frame earlier than t plus the (possibly
      shortened) interval ticks again. */
  lemma FramesAreSpaced(s: Snapshot, t: int, draws: Draws, t': int, draws': Draws)
    requires FrameDue(s, t) && TickEnabled(s, draws)
    requires t' - t < Frame(s, t, draws).currentSpeed
    ensures Frame(Frame(s, t, draws), t', draws') == Frame(s, t, draws)
  {
  }

  lemma FramePreservesInv(s: Snapshot, timestamp: int, draws: Draws)
    requires Inv(s) && (FrameDue(s, timestamp) ==> TickEnabled(s, draws))
    ensures Inv(Frame(s, timestamp, draws))
  {
    if FrameDue(s, timestamp) {
      TickPreservesInv(s, draws);
    }
  }
}
