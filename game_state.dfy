/** The page's single gameState object, updated in place by tick,
    setDirection, resetGame, the high-score update and gameLoop. Each method
    is proved to take the object from a state to the state the matching
    function of Rules computes, and to keep Rules.Inv. */
module Game {
  import opened Grid
  import opened Body
  import opened Food
  import opened Rules

  class GameState {
    var snake: seq<Pos>
    var direction: Direction
    var nextDirection: Direction
    var food: Pos
    var score: nat
    var highScore: int
    var gameOver: bool
    var lastTick: int
    var currentSpeed: int

    /** The object's fields as a value. */
    function State(): Snapshot
      reads this
    {
      Snapshot(snake, direction, nextDirection, food, score, highScore, gameOver, lastTick, currentSpeed)
    }

    predicate Valid()
      reads this
    {
      Inv(State())
    }

    /** The gameState literal the page starts from, with the high score read
        from the persistent store. */
    constructor (storedHighScore: int)
      ensures State() == Initial(storedHighScore) && Valid()
    {
      snake := [];
      direction := Right;
      nextDirection := Right;
      food := Pos(0, 0);
      score := 0;
      highScore := storedHighScore;
      gameOver := false;
      lastTick := 0;
      currentSpeed := TICK_INTERVAL;
    }

    /** The high-score half of updateScoreDisplay. */
    method UpdateHighScore()
      modifies this`highScore
      ensures State() == RecordHighScore(old(State()))
      ensures highScore == Max(old(highScore), score)
      ensures old(Valid()) ==> Valid()
    {
      if score > highScore {
        highScore := score;
      }
    }

    /** tick: one step of the simulation; returns the sound it plays. */
    method Tick(draws: Draws) returns (ev: Event)
      requires TickEnabled(State(), draws)
      modifies this
      ensures State() == Rules.Tick(old(State()), draws)
      ensures old(Valid()) ==> Valid()
      ensures ev == TickEvent(old(State()))
    {
      ghost var before := State();
      if Inv(before) {
        TickPreservesInv(before, draws);
      }
      if gameOver {
        ev := Skipped;
        return;
      }
      direction := nextDirection;
      var head := snake[0];
      var dir := Delta(direction);
      var newHead := Pos(WrapCoordinate(head.x + dir.x, GRID_SIZE),
                         WrapCoordinate(head.y + dir.y, GRID_SIZE));
      assert newHead == PlannedHead(before);
      if CheckSelfCollision(snake, newHead) {
        gameOver := true;
        ev := Died;
        return;
      }
      ev := Advance(newHead, draws);
    }

    /** The unshift-then-eat-or-pop part of tick. */
    method Advance(newHead: Pos, draws: Draws) returns (ev: Event)
      requires newHead != food || FirstFree([newHead] + snake, draws).Some?
      modifies this
      ensures State() == Rules.Advance(old(State()), newHead, draws)
      ensures ev == if newHead != old(food) then Moved
                    else if LevelUp(old(score) + 1) then LeveledUp else Ate
    {
      snake := [newHead] + snake;
      if newHead == food {
        score := score + 1;
        food := GenerateFood(snake, draws);
        UpdateHighScore();
        if score % LEVEL_SIZE == 0 && score > 0 {
          ev := LeveledUp;
          currentSpeed := Max(MIN_SPEED, currentSpeed - SPEED_STEP);
        } else {
          ev := Ate;
        }
      } else {
        snake := snake[..|snake| - 1];
        ev := Moved;
      }
    }

    /** setDirection: bank d for the next tick unless the game is over or d
        reverses the committed direction. */
    method SetDirection(d: Direction)
      modifies this`nextDirection
      ensures State() == Rules.SetDirection(old(State()), d)
      ensures old(Valid()) ==> Valid()
    {
      if Valid() {
        SetDirectionPreservesInv(State(), d);
      }
      if !gameOver && Opposite(d) != direction {
        nextDirection := d;
      }
    }

    /** resetGame: start a fresh game from any state; `now` is the clock
        reading stored in lastTick. */
    method Reset(now: int, draws: Draws)
      requires FirstFree(InitialSnake(), draws).Some?
      modifies this
      ensures Valid()
      ensures State() == Rules.Reset(old(State()), now, draws)
    {
      ghost var before := State();
      ResetEstablishesInv(before, now, draws);
      var centerX := GRID_SIZE / 2;
      var centerY := GRID_SIZE / 2;
      snake := [Pos(centerX, centerY), Pos(centerX - 1, centerY), Pos(centerX - 2, centerY)];
      direction := Right;
      nextDirection := Right;
      food := GenerateFood(snake, draws);
      score := 0;
      gameOver := false;
      lastTick := now;
      currentSpeed := TICK_INTERVAL;
      UpdateHighScore();
    }

    /** gameLoop: tick at most once, when a full interval has elapsed since
        the last tick and the game runs. Rendering is not modelled. */
    method GameLoop(timestamp: int, draws: Draws)
      requires FrameDue(State(), timestamp) ==> TickEnabled(State(), draws)
      modifies this
      ensures State() == Frame(old(State()), timestamp, draws)
      ensures old(Valid()) ==> Valid()
    {
      if Valid() {
        FramePreservesInv(State(), timestamp, draws);
      }
      var elapsed := timestamp - lastTick;
      if elapsed >= currentSpeed && !gameOver {
        var ev := Tick(draws);
        lastTick := timestamp;
      }
    }
  }
}
