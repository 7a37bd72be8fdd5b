# Snake game core, modelled in Dafny

This project models the simulation core of a browser Snake game (`js/game.js`).
The snake moves on a 25 x 25 board. The board wraps around: a snake that leaves
one edge comes back on the opposite edge. Each tick does four things in order:
it commits the direction the player banked, computes the new head, checks the
head against the pre-move body (minus its first cell), and then either eats or
moves. Eating adds one point, places new food by rejection sampling and may
shorten the tick interval. Moving drops the tail cell. A self-collision ends the
game, and the game stays over until a reset. The frame callback ticks at most
once per frame, and only when a full interval has passed.

Files and modules:

- `grid.dfy` (`Grid`): cells, directions (`DIRECTIONS`, `OPPOSITES`),
  JavaScript's truncating `%`, `wrapCoordinate` and the head step.
- `body.dfy` (`Body`): `isOnSnake` and `checkSelfCollision` over the head-first
  body.
- `food.dfy` (`Food`): `generateFood`. Its do-while loop is a `while` loop over
  the values `Math.random()` returns, which are passed in as a parameter.
- `rules.dfy` (`Rules`): the game state as a value (`Snapshot`, one field per
  field of `gameState`). It holds pure transitions for `tick`, `setDirection`,
  `resetGame`, the high-score update and the frame callback, the state
  invariant `Inv`, and the lemmas about one step.
- `session.dfy` (`Session`): `KEY_MAP`, plus runs made of animation frames,
  direction keys and restarts, with lemmas about whole runs.
- `game_state.dfy` (`Game`): the single `gameState` object as a class whose
  methods update its fields in place. Each method is proved to produce the
  state that the matching `Rules` function computes. `Tick`, `SetDirection`,
  `GameLoop` and `UpdateHighScore` keep `Inv`, and `Reset` establishes it
  from any state. `Advance` is only a part of `Tick`, so `Tick` carries that
  guarantee for it.
- `scenarios.dfy` (`Scenarios`): small concrete runs.

The state invariant `Rules.Inv` goes beyond what the code checks. It says:

- every cell is on the board;
- the body never overlaps itself;
- the food is never on the body;
- the tick interval is a function of the score, `max(50, 150 - 15 * (score / 10))`;
- the banked direction is never the reverse of the committed one;
- after the first reset, the body has exactly `3 + score` cells.

When the snake eats, the tail is kept (js/game.js:234-251). So a fresh snake
that eats the food at (13,12) has four cells (`Scenarios.EatRightAfterReset`).

The head is checked against every segment from index 1 on, and that includes
the tail cell, which would move away during the same tick. So turning into the
current tail cell ends the game (`Scenarios.TurnIntoOwnTail`). The model keeps
this behaviour as written.

## Model

| member | source | states |
|---|---|---|
| `Grid.Delta` | js/game.js:21-26 | every DIRECTIONS entry is a unit step along one axis |
| `Grid.Opposite` | js/game.js:28-34 | no direction is its own opposite |
| `Grid.OppositeInvolution` | js/game.js:21-34 | OPPOSITES is an involution, and the opposite direction's step is the negated step |
| `Grid.JsRem` | js/game.js:70 | JavaScript's `%` takes the sign of the dividend, and its magnitude is the remainder of the magnitudes |
| `Grid.JsWrapIsEuclidean` | js/game.js:69-71 | `((v % max) + max) % max`, with truncating `%`, equals the Euclidean remainder of v by max, for every integer v |
| `Grid.WrapCoordinate` | js/game.js:69-71 | the result lies in [0, max), is congruent to the value modulo max, and equals the value when the value is already in range |
| `Grid.NextHead` | js/game.js:219-225 | the new head is on the board, and each coordinate is the old one plus the direction's step, modulo 25 |
| `Grid.NextHeadMoves` | js/game.js:222-225 | a step never returns to the cell it started from |
| `Grid.NextHeadWrapsAround` | js/game.js:222-225 | stepping right from the last column reaches column 0, and stepping left from column 0 reaches the last column |
| `Body.IsOnSnake` | js/game.js:73-77 | true exactly when the cell is one of the body's cells |
| `Body.CheckSelfCollision` | js/game.js:79-83 | true exactly when the head is in the body without its first cell; an empty body never collides |
| `Body.CollisionAtSomeIndex` | js/game.js:79-83 | a collision happens exactly when some segment at index 1 or beyond is on the head's cell |
| `Body.HeadIsNotACollision` | js/game.js:79-83 | the segment at index 0 is never counted: replacing the current head cell by any other cell never changes the answer |
| `Food.Sample` | js/game.js:89-90 | `Math.floor(u * 25)` for u in [0, 1) is a column or row index in [0, 25) |
| `Food.Candidate` | js/game.js:88-91 | every candidate cell is on the board |
| `Food.FirstFree` | js/game.js:85-94 | a cell found by the sampling loop is on the board and not on the snake |
| `Food.FirstFreeFinds` | js/game.js:87-92 | the loop finds a cell exactly when some drawn candidate is free |
| `Food.FirstFreeIsFirst` | js/game.js:87-92 | the cell found is a drawn candidate, and every earlier candidate was on the snake |
| `Food.GenerateFood` | js/game.js:85-94 | the do-while loop returns the first free candidate; it is on the board and off the snake |
| `Rules.Initial` | js/game.js:49-59 | the state at page load has an empty snake, is running, carries the stored high score and satisfies the invariant |
| `Rules.NextSpeed` | js/game.js:242-246 | the interval drops by 15, floored at 50, exactly when the post-increment score is a positive multiple of 10; otherwise it stays; it never rises and never goes below 50 from 50 or above |
| `Rules.SpeedForScore` | js/game.js:242-246 | the interval a score implies within one game lies in [50, 150], and is 150 below a score of 10 |
| `Rules.SpeedForNextScore` | js/game.js:237-246 | eating once moves the interval from one score's value to the next score's value under the level-up rule |
| `Rules.RecordHighScore` | js/game.js:112-115 | the high score becomes max(high score, score), and nothing else changes |
| `Rules.Inv` | js/game.js:49-59 | the state invariant listed above; no contract of its own; established by `Initial` and `ResetEstablishesInv` and kept by `TickPreservesInv`, `SetDirectionPreservesInv` and `FramePreservesInv` |
| `Rules.Tick` | js/game.js:215-252 | no contract of its own; see `TickWhenOver`, `TickOnCollision`, `TickMove`, `TickEat`, `TickPreservesInv` and `TickMonotone` |
| `Rules.Advance` | js/game.js:234-251 | no contract of its own; the non-colliding half of `Tick`, described by `TickMove` and `TickEat` |
| `Rules.TickEvent` | js/game.js:229-247 | no contract of its own; `TickWhenOver`, `TickOnCollision`, `TickMove`, `TickEat` and `Game.GameState.Tick` state which sound each case plays |
| `Rules.TickWhenOver` | js/game.js:216 | a tick on a finished game changes nothing and plays nothing |
| `Rules.TickOnCollision` | js/game.js:218-232 | a head on a segment at index 1 or beyond sets gameOver and commits the direction; snake, score, food and speed are unchanged |
| `Rules.TickMove` | js/game.js:234-251 | without food, the new head becomes element 0, the old body minus its tail follows in order, and length and score are unchanged |
| `Rules.TickEat` | js/game.js:234-248 | on food, the snake is the new head followed by the whole old body, and the length and score grow by exactly 1; the new food is off the grown snake; high score and speed follow their rules; the event is the level-up sound or the eat sound |
| `Rules.FreshHead` | js/game.js:222-232 | a head that passed the collision check is on no cell of the pre-move body |
| `Rules.TickPreservesInv` | js/game.js:215-252 | a tick keeps the state invariant |
| `Rules.TickMonotone` | js/game.js:215-252 | a tick raises score and length by 0 or 1, never lowers the high score, never raises the interval, keeps it at 50 or above, and never restarts a finished game |
| `Rules.SetDirection` | js/game.js:282-286 | no contract of its own; see `SetDirectionSpec`, `ReverseRejected`, `LastInputWins` and `SetDirectionPreservesInv` |
| `Rules.SetDirectionSpec` | js/game.js:282-286 | only nextDirection can change; it becomes d when the game runs and d is not the reverse of the committed direction; otherwise nothing changes |
| `Rules.ReverseRejected` | js/game.js:283 | the reverse of the committed direction is always rejected |
| `Rules.LastInputWins` | js/game.js:282-286 | of two inputs between ticks, the last accepted one is the banked direction |
| `Rules.SetDirectionPreservesInv` | js/game.js:282-286 | an input keeps the state invariant, including that no reversal is ever banked |
| `Rules.InitialSnake` | js/game.js:303-310 | the reset body is [(12,12), (11,12), (10,12)]: three distinct cells on the board |
| `Rules.Reset` | js/game.js:302-321 | no contract of its own; see `ResetState`, `ResetForgetsPriorState` and `ResetEstablishesInv` |
| `Rules.ResetState` | js/game.js:302-321 | after a reset: that body, both directions right, score 0, running, interval 150, lastTick the clock reading, food off the snake, high score max(previous, 0) |
| `Rules.ResetForgetsPriorState` | js/game.js:302-317 | two resets from any two states agree on everything except the high score |
| `Rules.ResetEstablishesInv` | js/game.js:302-317 | a reset establishes the invariant, whatever the state before |
| `Rules.Frame` | js/game.js:323-330 | no contract of its own; see `FramePacing`, `FramesAreSpaced` and `FramePreservesInv` |
| `Rules.FramePacing` | js/game.js:323-330 | a frame ticks once exactly when the interval has elapsed and the game runs, and then sets lastTick to its timestamp; otherwise it changes nothing; lastTick moves only when it ticks |
| `Rules.FramesAreSpaced` | js/game.js:323-330 | after a tick at time t, no frame earlier than t plus the new interval ticks again |
| `Rules.FramePreservesInv` | js/game.js:323-330 | a frame keeps the state invariant |
| `Session.KEY_MAP` | js/game.js:37-46 | a constant with no contract; `EveryDirectionHasTwoKeys` and `KeyActions` state what it maps |
| `Session.KeyActions` | js/game.js:289-299 | a key press causes at most one action: arrow and WASD keys steer through KEY_MAP, space, r and R restart, and other keys do nothing |
| `Session.EveryDirectionHasTwoKeys` | js/game.js:37-46 | each direction has two distinct keys in KEY_MAP |
| `Session.RunPreservesInv` | js/game.js:215-330 | every state reached by frames, inputs and restarts satisfies the invariant |
| `Session.HighScoreNeverDecreases` | js/game.js:112-115 | the high score never decreases over any run, resets included |
| `Session.HighScoreCoversScore` | js/game.js:112-115 | once the high score is at least the score, it stays at least the score |
| `Session.GameOverIsTerminal` | js/game.js:216-329 | without a restart, frames and inputs leave a finished game exactly as it is |
| `Session.WithinOneGame` | js/game.js:234-251 | without a restart, score, length and the game-over flag only grow, the interval only shrinks and stays at 50 or above, and length minus score is constant |
| `Game.GameState.constructor` | js/game.js:49-59 | the object starts as the page-load state, which satisfies the invariant |
| `Game.GameState.UpdateHighScore` | js/game.js:112-115 | only highScore changes, it becomes max(old highScore, score), and the invariant is kept |
| `Game.GameState.Tick` | js/game.js:215-252 | the fields end as `Rules.Tick` computes from the old fields, the returned event is the sound played, and the invariant is kept |
| `Game.GameState.Advance` | js/game.js:234-251 | unshift, then eat or pop, in place, as `Rules.Advance` computes |
| `Game.GameState.SetDirection` | js/game.js:282-286 | only nextDirection is written, as `Rules.SetDirection` computes; the invariant is kept |
| `Game.GameState.Reset` | js/game.js:302-321 | the fields end as `Rules.Reset` computes, and the invariant holds afterwards from any prior state |
| `Game.GameState.GameLoop` | js/game.js:323-330 | the fields end as `Rules.Frame` computes, with at most one tick, and the invariant is kept |
| `Scenarios.EatRightAfterReset` | js/game.js:234-248 | a fresh snake facing food at (13,12) eats it and becomes [(13,12), (12,12), (11,12), (10,12)] with score 1 |
| `Scenarios.TurnIntoOwnTail` | js/game.js:227-232 | turning into the current tail cell ends the game, and further ticks change nothing |
| `Scenarios.QuickDoubleTurn` | js/game.js:282-286 | moving right, "up" then "left" within one tick keeps "up" banked |
| `Scenarios.TenthFoodLevelsUp` | js/game.js:242-246 | the tenth food takes the interval from 150 to 135 and plays the level-up sound |

## Left out

- Rendering (`drawCell`, `render`), the colour table, `CELL_SIZE` and `CANVAS_SIZE`, and the game-over overlay (`showGameOverOverlay`, `hideGameOverOverlay`): these are canvas and DOM output with no effect on the state. A tick returns an `Event` tag instead.
- Audio (`playEatSound`, `playLevelUpSound`, `playGameOverSound`): Web Audio calls. They appear only as the `Ate`, `LeveledUp` and `Died` event tags.
- `localStorage` (the high score read at load with the `parseInt(...) || 0` default, and the write in `updateScoreDisplay`), the score and high-score text writes, and `resizeCanvas`: I/O and viewport plumbing. The stored value is a constructor parameter.
- `requestAnimationFrame`, `performance.now()` and `init`: the scheduler and clock are external. Timestamps are integer parameters, and a run is a sequence of callbacks.
- The `keydown` listener's `preventDefault` and the Play Again button wiring: event plumbing. What a key press does to the state is `Session.KeyActions`.
- `Math.random`: a finite prefix of its output is a parameter. `Food.GenerateFood` requires that prefix to hold a free candidate. Real JavaScript loops until it finds one, and never finds one if the board is full; that termination is assumed, not proved.
- `Grid.WrapCoordinate`: requires `max > 0`. The code passes only `GRID_SIZE`; JavaScript would return NaN for 0 and a non-positive result for a negative `max`.
- `Rules.Tick` and `Game.GameState.Tick`: require a non-empty snake unless the game is over. Before the first reset the snake is empty, and `tick` would throw; `init` always resets before the first frame.
- JavaScript numbers are doubles. Scores, intervals and timestamps are unbounded integers here, and real-valued timestamps are not modelled.
