/** Geometry of the snake board: cells, directions and toroidal wrap-around
    (the CONFIG, DIRECTIONS and OPPOSITES tables and wrapCoordinate). */
module Grid {

  /** CONFIG.GRID_SIZE: the board has GRID_SIZE x GRID_SIZE cells. */
  const GRID_SIZE: int := 25

  /** A cell, compared by value (js/game.js compares x and y field by field). */
  datatype Pos = Pos(x: int, y: int)

  predicate OnGrid(p: Pos) {
    0 <= p.x < GRID_SIZE && 0 <= p.y < GRID_SIZE
  }

  datatype Direction = Up | Down | Left | Right

  /** DIRECTIONS: the unit step of each direction; y grows downwards. */
  function Delta(d: Direction): (step: Pos)
    ensures Abs(step.x) + Abs(step.y) == 1
  {
    match d
    case Up => Pos(0, -1)
    case Down => Pos(0, 1)
    case Left => Pos(-1, 0)
    case Right => Pos(1, 0)
  }

  /** OPPOSITES: the 180-degree turn of each direction. */
  function Opposite(d: Direction): (o: Direction)
    ensures o != d
  {
    match d
    case Up => Down
    case Down => Up
    case Left => Right
    case Right => Left
  }

  /** OPPOSITES is an involution, and the opposite direction steps exactly
      backwards. */
  lemma OppositeInvolution(d: Direction)
    ensures Opposite(Opposite(d)) == d
    ensures Delta(Opposite(d)) == Pos(-Delta(d).x, -Delta(d).y)
  {
  }

  function Abs(n: int): nat {
    if n < 0 then -n else n
  }

  /** JavaScript's `%` on integers: the remainder of division truncated
      towards zero, which takes the sign of the dividend. */
  function JsRem(a: int, b: int): (r: int)
    requires b != 0
    ensures a >= 0 ==> 0 <= r < Abs(b)
    ensures a < 0 ==> -(Abs(b) as int) < r <= 0
    ensures Abs(r) == Abs(a) % Abs(b)
  {
    if a >= 0 then a % Abs(b) else -((-a) % Abs(b))
  }

  /** Euclidean division has a unique quotient and remainder. */
  lemma ModUnique(a: int, m: int, q: int, r: int)
    requires m > 0 && a == m * q + r && 0 <= r < m
    ensures a % m == r
  {
    var d, e := a / m, a % m;
    var k := q - d;
    assert m * k == e - r;
    MulBound(m, k);
  }

  lemma MulBound(m: int, k: int)
    requires m > 0
    ensures k >= 1 ==> m * k >= m
    ensures k <= -1 ==> m * k <= -m
  {
  }

  /** The JavaScript expression `((value % max) + max) % max` is the
      mathematical (Euclidean) remainder of value by max. */
  lemma JsWrapIsEuclidean(value: int, max: int)
    requires max > 0
    ensures JsRem(JsRem(value, max) + max, max) == value % max
    ensures 0 <= value < max ==> value % max == value
  {
    if value >= 0 {
      JsWrapNonNegative(value, max);
    } else {
      JsWrapNegative(value, max);
    }
  }

  lemma JsWrapNonNegative(value: int, max: int)
    requires max > 0 && value >= 0
    ensures JsRem(JsRem(value, max) + max, max) == value % max
    ensures value < max ==> value % max == value
  {
    var t := value % max;
    ModUnique(t + max, max, 1, t);
    if value < max {
      ModUnique(value, max, 0, value);
    }
  }

  lemma JsWrapNegative(value: int, max: int)
    requires max > 0 && value < 0
    ensures JsRem(JsRem(value, max) + max, max) == value % max
  {
    var q, e := (-value) / max, (-value) % max;
    assert -value == max * q + e;
    assert JsRem(value, max) == -e;
    if e == 0 {
      ModUnique(max, max, 1, 0);
      assert value == max * (-q);
      ModUnique(value, max, -q, 0);
    } else {
      ModUnique(max - e, max, 0, max - e);
      assert JsRem(max - e, max) == max - e;
      assert value == max * (-q - 1) + (max - e);
      ModUnique(value, max, -q - 1, max - e);
    }
  }

  /** wrapCoordinate: folds any integer onto [0, max) modulo max. */
  function WrapCoordinate(value: int, max: int): (r: int)
    requires max > 0
    ensures 0 <= r < max
    ensures r == value % max
    ensures 0 <= value < max ==> r == value
  {
    JsWrapIsEuclidean(value, max);
    JsRem(JsRem(value, max) + max, max)
  }

  /** The head cell after one step in direction d, wrapped on both axes. */
  function NextHead(head: Pos, d: Direction): (h: Pos)
    ensures OnGrid(h)
    ensures h.x == (head.x + Delta(d).x) % GRID_SIZE
    ensures h.y == (head.y + Delta(d).y) % GRID_SIZE
  {
    Pos(WrapCoordinate(head.x + Delta(d).x, GRID_SIZE),
        WrapCoordinate(head.y + Delta(d).y, GRID_SIZE))
  }

  /** A step always leaves the current cell: on a 25-wide torus no unit step
      comes back to where it started. */
  lemma NextHeadMoves(head: Pos, d: Direction)
    requires OnGrid(head)
    ensures NextHead(head, d) != head
  {
  }

  /** Stepping off one edge re-enters on the opposite edge. */
  lemma NextHeadWrapsAround(y: int)
    requires 0 <= y < GRID_SIZE
    ensures NextHead(Pos(GRID_SIZE - 1, y), Right) == Pos(0, y)
    ensures NextHead(Pos(0, y), Left) == Pos(GRID_SIZE - 1, y)
  {
  }
}
