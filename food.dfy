/** Food placement (generateFood): rejection sampling of uniformly random
    cells until one is not on the snake. The random number generator is not
    modelled; a finite prefix of its output is passed in instead. */
module Food {
  import opened Grid
  import opened Body

  /** A value of Math.random(): a real in [0, 1). */
  type Uniform = u: real | 0.0 <= u < 1.0

  /** The random values read by the successive attempts of the do-while loop,
      one (x, y) pair per attempt. */
  type Draws = seq<(Uniform, Uniform)>

  datatype Option<T> = None | Some(value: T)

  /** Math.floor(Math.random() * CONFIG.GRID_SIZE). */
  function Sample(u: Uniform): (c: int)
    ensures 0 <= c < GRID_SIZE
    ensures c as real <= u * GRID_SIZE as real < c as real + 1.0
  {
    (u * GRID_SIZE as real).Floor
  }

  /** The candidate cell of one attempt. */
  function Candidate(d: (Uniform, Uniform)): (p: Pos)
    ensures OnGrid(p)
  {
    Pos(Sample(d.0), Sample(d.1))
  }

  /** The cell the rejection loop settles on: the first candidate that is not
      on the snake, or None when every drawn candidate is taken. */
  function FirstFree(snake: seq<Pos>, draws: Draws): (r: Option<Pos>)
    ensures r.Some? ==> OnGrid(r.value) && r.value !in snake
  {
    if |draws| == 0 then None
    else if !IsOnSnake(snake, Candidate(draws[0])) then Some(Candidate(draws[0]))
    else FirstFree(snake, draws[1..])
  }

  /** The loop finds a cell exactly when some drawn candidate is free. */
  lemma {:induction false} FirstFreeFinds(snake: seq<Pos>, draws: Draws)
    ensures FirstFree(snake, draws).Some? <==> exists k :: 0 <= k < |draws| && Candidate(draws[k]) !in snake
  {
    if |draws| > 0 {
      FirstFreeFinds(snake, draws[1..]);
      assert forall k :: 1 <= k < |draws| ==> draws[k] == draws[1..][k - 1];
    }
  }

  /** The cell found is the first free candidate: every earlier attempt
      landed on the snake. */
  lemma {:induction false} FirstFreeIsFirst(snake: seq<Pos>, draws: Draws)
    requires FirstFree(snake, draws).Some?
    ensures exists k :: 0 <= k < |draws| && FirstFree(snake, draws).value == Candidate(draws[k])
                        && forall j :: 0 <= j < k ==> Candidate(draws[j]) in snake
  {
    if IsOnSnake(snake, Candidate(draws[0])) {
      FirstFreeIsFirst(snake, draws[1..]);
      var k' :| 0 <= k' < |draws[1..]| && FirstFree(snake, draws[1..]).value == Candidate(draws[1..][k'])
                && forall j :: 0 <= j < k' ==> Candidate(draws[1..][j]) in snake;
      forall j | 0 <= j < k' + 1 ensures Candidate(draws[j]) in snake {
        if j > 0 { assert draws[j] == draws[1..][j - 1]; }
      }
      assert draws[k' + 1] == draws[1..][k'];
    } else {
      assert FirstFree(snake, draws).value == Candidate(draws[0]);
    }
  }

  /** generateFood: repeats drawing a candidate while it lies on the snake.
      The loop is generateFood's do-while; the requirement that some drawn
      candidate is free stands for the liveness assumption that the loop
      eventually finds a free cell. */
  method GenerateFood(snake: seq<Pos>, draws: Draws) returns (position: Pos)
    requires FirstFree(snake, draws).Some?
    ensures FirstFree(snake, draws) == Some(position)
    ensures OnGrid(position) && position !in snake
  {
    var i := 0;
    position := Candidate(draws[i]);
    while IsOnSnake(snake, position)
      invariant 0 <= i < |draws|
      invariant position == Candidate(draws[i])
      invariant FirstFree(snake, draws[i..]) == FirstFree(snake, draws)
      decreases |draws| - i
    {
      assert draws[i..][1..] == draws[i + 1..];
      i := i + 1;
      position := Candidate(draws[i]);
    }
  }
}
