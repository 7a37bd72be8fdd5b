/** Queries on the snake's body, a head-first sequence of cells
    (isOnSnake and checkSelfCollision). */
module Body {
  import opened Grid

  /** isOnSnake: some segment of the body sits on cell p. */
  function IsOnSnake(snake: seq<Pos>, p: Pos): (r: bool)
    ensures r <==> p in snake
  {
    if |snake| == 0 then false
    else snake[0] == p || IsOnSnake(snake[1..], p)
  }

  /** checkSelfCollision: the head would land on the current body without
      its first cell (index 0, the current head, which is about to move). */
  function CheckSelfCollision(snake: seq<Pos>, head: Pos): (r: bool)
    ensures r <==> |snake| > 0 && head in snake[1..]
  {
    if |snake| == 0 then false else IsOnSnake(snake[1..], head)
  }

  /** The same condition stated over indices: some segment at index 1 or
      beyond sits on the head's cell. */
  lemma CollisionAtSomeIndex(snake: seq<Pos>, head: Pos)
    ensures CheckSelfCollision(snake, head) <==> exists i :: 1 <= i < |snake| && snake[i] == head
  {
    if |snake| > 0 {
      assert forall i :: 1 <= i < |snake| ==> snake[i] == snake[1..][i - 1];
      if head in snake[1..] {
        var k :| 0 <= k < |snake[1..]| && snake[1..][k] == head;
        assert snake[k + 1] == head;
      }
    }
  }

  /** Index 0 never counts: whatever cell the current head occupies, the
      answer depends only on the rest of the body. */
  lemma HeadIsNotACollision(p: Pos, q: Pos, rest: seq<Pos>, head: Pos)
    ensures CheckSelfCollision([p] + rest, head) == CheckSelfCollision([q] + rest, head)
  {
    assert ([p] + rest)[1..] == rest;
    assert ([q] + rest)[1..] == rest;
  }

  /** No cell is occupied twice. */
  predicate Distinct(snake: seq<Pos>) {
    forall i, j :: 0 <= i < j < |snake| ==> snake[i] != snake[j]
  }

  predicate AllOnGrid(snake: seq<Pos>) {
    forall i :: 0 <= i < |snake| ==> OnGrid(snake[i])
  }
}
