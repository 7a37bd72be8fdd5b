/** Concrete runs of the rules on small states. */
module Scenarios {
  import opened Grid
  import opened Body
  import opened Food
  import opened Rules

  /** A fresh game facing right with food just ahead: one tick eats it. The
      snake keeps its tail when it eats, so it has four cells afterwards,
      and the new food is the first random candidate, which is free. */
  lemma EatRightAfterReset()
    ensures var s := Snapshot(InitialSnake(), Right, Right, Pos(13, 12), 0, 0, false, 0, TICK_INTERVAL);
      && TickEnabled(s, [(0.0, 0.0)])
      && Tick(s, [(0.0, 0.0)])
         == Snapshot([Pos(13, 12), Pos(12, 12), Pos(11, 12), Pos(10, 12)], Right, Right,
                     Pos(0, 0), 1, 1, false, 0, TICK_INTERVAL)
      && TickEvent(s) == Ate
  {
    var s := Snapshot(InitialSnake(), Right, Right, Pos(13, 12), 0, 0, false, 0, TICK_INTERVAL);
    assert Candidate((0.0, 0.0)) == Pos(0, 0);
    assert PlannedHead(s) == Pos(13, 12);
  }

  /** A snake of four cells curled into a square, turning right into the
      cell its tail occupies: the tail would move away during this tick, but
      the check runs against the pre-move body, so the game ends; later
      ticks change nothing. */
  lemma TurnIntoOwnTail()
    ensures var s := Snapshot([Pos(5, 5), Pos(5, 6), Pos(6, 6), Pos(6, 5)], Up, Right,
                              Pos(0, 0), 1, 1, false, 0, TICK_INTERVAL);
      && TickEnabled(s, [])
      && Tick(s, []) == s.(direction := Right, gameOver := true)
      && TickEvent(s) == Died
      && Tick(Tick(s, []), []) == Tick(s, [])
  {
    var s := Snapshot([Pos(5, 5), Pos(5, 6), Pos(6, 6), Pos(6, 5)], Up, Right,
                      Pos(0, 0), 1, 1, false, 0, TICK_INTERVAL);
    assert PlannedHead(s) == Pos(6, 5);
    assert s.snake[1..][2] == Pos(6, 5);
  }

  /** Moving right, pressing up and then left before the next tick: left is
      still compared with the committed direction (right), so it is
      rejected and up stays banked. */
  lemma QuickDoubleTurn()
    ensures var s := Snapshot(InitialSnake(), Right, Right, Pos(0, 0), 0, 0, false, 0, TICK_INTERVAL);
      SetDirection(SetDirection(s, Up), Left).nextDirection == Up
  {
  }

  /** The tenth food is a level-up: the interval drops from 150 to 135 ms. */
  lemma TenthFoodLevelsUp(s: Snapshot, draws: Draws)
    requires Inv(s) && !s.gameOver && s.score == 9 && |s.snake| > 0
    requires !CheckSelfCollision(s.snake, PlannedHead(s)) && PlannedHead(s) == s.food
    requires TickEnabled(s, draws)
    ensures Tick(s, draws).score == 10 && Tick(s, draws).currentSpeed == 135
    ensures TickEvent(s) == LeveledUp
  {
  }
}
