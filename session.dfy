/** A session as a sequence of the events that reach the game state: animation
    frames (gameLoop), direction keys (setDirection) and restarts (space, R or
    the Play Again button: resetGame). Lemmas here are about whole runs. */
module Session {
  import opened Grid
  import opened Body
  import opened Food
  import opened Rules

  datatype Action =
    | AnimationFrame(timestamp: int, draws: Draws)
    | Steer(dir: Direction)
    | Restart(now: int, draws: Draws)

  /** KEY_MAP: arrow keys and WASD to directions. */
  const KEY_MAP: map<string, Direction> :=
    map["ArrowUp" := Up, "ArrowDown" := Down, "ArrowLeft" := Left, "ArrowRight" := Right,
        "w" := Up, "s" := Down, "a" := Left, "d" := Right]

  /** The keys that restart the game. */
  const RESET_KEYS: set<string> := {" ", "r", "R"}

  /** The actions one key press causes: a direction key steers, a reset key
      restarts, any other key does nothing. */
  function KeyActions(key: string, now: int, draws: Draws): (acts: seq<Action>)
    ensures |acts| <= 1
    ensures key in KEY_MAP ==> acts == [Steer(KEY_MAP[key])]
    ensures key in RESET_KEYS ==> acts == [Restart(now, draws)]
    ensures acts == [] <==> key !in KEY_MAP && key !in RESET_KEYS
  {
    (if key in KEY_MAP then [Steer(KEY_MAP[key])] else []) +
    (if key in RESET_KEYS then [Restart(now, draws)] else [])
  }

  /** Every direction has an arrow key and a letter key. */
  lemma EveryDirectionHasTwoKeys(d: Direction)
    ensures exists k1, k2 :: k1 in KEY_MAP && k2 in KEY_MAP && k1 != k2 && KEY_MAP[k1] == d && KEY_MAP[k2] == d
  {
    match d
    case Up => assert KEY_MAP["ArrowUp"] == Up && KEY_MAP["w"] == Up;
    case Down => assert KEY_MAP["ArrowDown"] == Down && KEY_MAP["s"] == Down;
    case Left => assert KEY_MAP["ArrowLeft"] == Left && KEY_MAP["a"] == Left;
    case Right => assert KEY_MAP["ArrowRight"] == Right && KEY_MAP["d"] == Right;
  }

  /** What an action needs of the state (see TickEnabled) and of the random
      values it is given. */
  predicate Enabled(s: Snapshot, a: Action) {
    match a
    case AnimationFrame(t, draws) => FrameDue(s, t) ==> TickEnabled(s, draws)
    case Steer(_) => true
    case Restart(_, draws) => FirstFree(InitialSnake(), draws).Some?
  }

  function Apply(s: Snapshot, a: Action): Snapshot
    requires Enabled(s, a)
  {
    match a
    case AnimationFrame(t, draws) => Frame(s, t, draws)
    case Steer(d) => SetDirection(s, d)
    case Restart(now, draws) => Reset(s, now, draws)
  }

  predicate Runnable(s: Snapshot, acts: seq<Action>)
    decreases |acts|
  {
    |acts| == 0 || (Enabled(s, acts[0]) && Runnable(Apply(s, acts[0]), acts[1..]))
  }

  function Run(s: Snapshot, acts: seq<Action>): Snapshot
    requires Runnable(s, acts)
    decreases |acts|
  {
    if |acts| == 0 then s else Run(Apply(s, acts[0]), acts[1..])
  }

  predicate NoRestart(acts: seq<Action>) {
    forall i :: 0 <= i < |acts| ==> !acts[i].Restart?
  }

  lemma ApplyPreservesInv(s: Snapshot, a: Action)
    requires Inv(s) && Enabled(s, a)
    ensures Inv(Apply(s, a))
  {
    match a
    case AnimationFrame(t, draws) => FramePreservesInv(s, t, draws);
    case Steer(d) => SetDirectionPreservesInv(s, d);
    case Restart(now, draws) => ResetEstablishesInv(s, now, draws);
  }

  /** Every state a session reaches satisfies the invariant: all cells on
      the grid, no overlap, food off the snake, the interval in step with the
      score, no banked reversal, and the length three plus the score. */
  lemma {:induction false} RunPreservesInv(s: Snapshot, acts: seq<Action>)
    requires Inv(s) && Runnable(s, acts)
    ensures Inv(Run(s, acts))
    decreases |acts|
  {
    if |acts| > 0 {
      ApplyPreservesInv(s, acts[0]);
      RunPreservesInv(Apply(s, acts[0]), acts[1..]);
    }
  }

  /** The high score never decreases, across resets too. */
  lemma {:induction false} HighScoreNeverDecreases(s: Snapshot, acts: seq<Action>)
    requires Runnable(s, acts)
    ensures Run(s, acts).highScore >= s.highScore
    decreases |acts|
  {
    if |acts| > 0 {
      var a := acts[0];
      if a.AnimationFrame? && FrameDue(s, a.timestamp) {
        TickMonotone(s, a.draws);
      }
      HighScoreNeverDecreases(Apply(s, a), acts[1..]);
    }
  }

  /** Once the high score covers the score, it keeps covering it. */
  lemma {:induction false} HighScoreCoversScore(s: Snapshot, acts: seq<Action>)
    requires Runnable(s, acts) && s.highScore >= s.score
    ensures Run(s, acts).highScore >= Run(s, acts).score
    decreases |acts|
  {
    if |acts| > 0 {
      HighScoreCoversScore(Apply(s, acts[0]), acts[1..]);
    }
  }

  /** Game over is terminal until a reset: frames and direction keys leave a
      finished game exactly as it is. */
  lemma {:induction false} GameOverIsTerminal(s: Snapshot, acts: seq<Action>)
    requires s.gameOver && NoRestart(acts) && Runnable(s, acts)
    ensures Run(s, acts) == s
    decreases |acts|
  {
    if |acts| > 0 {
      assert Apply(s, acts[0]) == s;
      GameOverIsTerminal(s, acts[1..]);
    }
  }

  /** Within one game (no reset), the score, the length and the game-over
      flag only grow, the interval only shrinks and stays at least MIN_SPEED,
      and length and score grow together. */
  lemma {:induction false} WithinOneGame(s: Snapshot, acts: seq<Action>)
    requires NoRestart(acts) && Runnable(s, acts) && s.currentSpeed >= MIN_SPEED
    ensures var r := Run(s, acts);
      && r.score >= s.score
      && |r.snake| >= |s.snake|
      && |r.snake| - r.score == |s.snake| - s.score
      && MIN_SPEED <= r.currentSpeed <= s.currentSpeed
      && (s.gameOver ==> r.gameOver)
    decreases |acts|
  {
    if |acts| > 0 {
      var a := acts[0];
      if a.AnimationFrame? && FrameDue(s, a.timestamp) {
        TickMonotone(s, a.draws);
      }
      WithinOneGame(Apply(s, a), acts[1..]);
    }
  }
}
