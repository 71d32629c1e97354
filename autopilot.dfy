/**
 * The autopilot's choice of move: head for the food along a shortest path,
 * otherwise step onto any free neighbour, otherwise give up (None), which the
 * game reads as "keep the current direction".
 */
module Autopilot {
  import opened Optional
  import opened Grid
  import opened Pathfinder

  /** Some neighbour of `c` is on the board and not an obstacle. */
  ghost predicate HasFreeNeighbour(c: Cell, obstacles: seq<Cell>)
  {
    exists n :: Adjacent(c, n) && Free(n, obstacles)
  }

  /** `c` is the first cell of some shortest path from `start` to `target`. */
  ghost predicate FirstStepOfShortest(start: Cell, target: Cell, obstacles: seq<Cell>, c: Cell)
  {
    exists w :: IsShortestPath(start, target, obstacles, w) && w != [] && w[0] == c
  }

  /**
   * The first direction among `Dirs[k..]` (UP, DOWN, LEFT, RIGHT) that leads
   * from `head` to a free cell, if any.
   */
  function FirstSafeFrom(head: Cell, snake: seq<Cell>, k: nat): (m: Option<Vec>)
    requires k <= |Dirs|
    ensures m.Some? ==> exists j :: k <= j < |Dirs| && m.value == Dirs[j] && Free(Step(head, Dirs[j]), snake)
                                    && forall i :: k <= i < j ==> !Free(Step(head, Dirs[i]), snake)
    ensures m.None? <==> forall j :: k <= j < |Dirs| ==> !Free(Step(head, Dirs[j]), snake)
    decreases |Dirs| - k
  {
    if k == |Dirs| then None
    else if Free(Step(head, Dirs[k]), snake) then Some(Dirs[k])
    else FirstSafeFrom(head, snake, k + 1)
  }

  /** The fallback move: the first of UP, DOWN, LEFT, RIGHT onto a free cell. */
  function FirstSafeMove(head: Cell, snake: seq<Cell>): (m: Option<Vec>)
    ensures m.Some? ==> exists j :: 0 <= j < |Dirs| && m.value == Dirs[j] && Free(Step(head, Dirs[j]), snake)
                                    && forall i :: 0 <= i < j ==> !Free(Step(head, Dirs[i]), snake)
    ensures m.None? <==> forall j :: 0 <= j < |Dirs| ==> !Free(Step(head, Dirs[j]), snake)
  {
    FirstSafeFrom(head, snake, 0)
  }

  /**
   * The fallback finds a move exactly when the head has a free neighbour, and
   * a move it finds is a unit step onto a free cell.
   */
  lemma FirstSafeMoveFound(head: Cell, snake: seq<Cell>)
    ensures FirstSafeMove(head, snake).Some? <==> HasFreeNeighbour(head, snake)
    ensures FirstSafeMove(head, snake).Some? ==>
              IsUnit(FirstSafeMove(head, snake).value) && Free(Step(head, FirstSafeMove(head, snake).value), snake)
  {
    var ns := Neighbours(head);
    if HasFreeNeighbour(head, snake) {
      var n :| Adjacent(head, n) && Free(n, snake);
      assert n in ns;
      var k :| 0 <= k < 4 && ns[k] == n;
      assert Free(Step(head, Dirs[k]), snake);
    }
    if FirstSafeMove(head, snake).Some? {
      var j :| 0 <= j < |Dirs| && FirstSafeMove(head, snake).value == Dirs[j] && Free(Step(head, Dirs[j]), snake);
      assert ns[j] in ns;
    }
  }

  /** Skipping directions that are not free does not change the fallback. */
  lemma {:induction false} FirstSafeSkip(head: Cell, snake: seq<Cell>, k: nat)
    requires k <= |Dirs|
    requires forall j :: 0 <= j < k ==> !Free(Step(head, Dirs[j]), snake)
    ensures FirstSafeMove(head, snake) == FirstSafeFrom(head, snake, k)
  {
    if k > 0 {
      FirstSafeSkip(head, snake, k - 1);
    }
  }

  /** The first cell of a non-empty shortest path is a free neighbour of its start. */
  lemma PathFirstStep(start: Cell, target: Cell, obstacles: seq<Cell>, w: seq<Cell>)
    requires IsShortestPath(start, target, obstacles, w) && w != []
    ensures Adjacent(start, w[0]) && Free(w[0], obstacles)
    ensures FirstStepOfShortest(start, target, obstacles, w[0])
    ensures HasFreeNeighbour(start, obstacles)
  {
    WalkSteps(start, obstacles, w);
    assert StepOk(Before(start, w, 0), w[0], obstacles);
  }

  /**
   * The autopilot's decision for the snake `snake` (head first) and the food
   * at `food`: the unit vector from the head to the first cell of the path the
   * search returns, when that path is non-empty; otherwise the first safe
   * direction; otherwise None.
   */
  method DecideNextMove(snake: seq<Cell>, food: Cell) returns (m: Option<Vec>)
    requires snake != []
    ensures m.Some? <==> HasFreeNeighbour(snake[0], snake)
    ensures m.Some? ==> IsUnit(m.value) && m.value in Dirs && Free(Step(snake[0], m.value), snake)
    ensures Reachable(snake[0], food, snake) && snake[0] != food ==>
              m.Some? && FirstStepOfShortest(snake[0], food, snake, Step(snake[0], m.value))
    ensures !Reachable(snake[0], food, snake) || snake[0] == food ==> m == FirstSafeMove(snake[0], snake)
  {
    var head := snake[0];
    var path: Option<seq<Cell>>;
    ghost var dequeues: nat;
    path, dequeues := ShortestPath(head, food, snake);

    if path.Some? && |path.value| > 0 {
      var nextPos := path.value[0];
      PathFirstStep(head, food, snake, path.value);
      m := Some(Vec(nextPos.x - head.x, nextPos.y - head.y));
      assert Step(head, m.value) == nextPos;
      UnitIsDirection(m.value);
      assert m.Some? <==> HasFreeNeighbour(head, snake);
      return m;
    }

    FirstSafeMoveFound(head, snake);
    m := SafeNeighbourMove(head, snake);
  }

  /**
   * The autopilot's fallback loop: try UP, DOWN, LEFT, RIGHT in that order and
   * take the first whose target cell is on the board and off the snake.
   */
  method SafeNeighbourMove(head: Cell, snake: seq<Cell>) returns (m: Option<Vec>)
    ensures m == FirstSafeMove(head, snake)
  {
    var neighbors := Dirs;
    for k := 0 to |neighbors|
      invariant forall j :: 0 <= j < k ==> !Free(Step(head, Dirs[j]), snake)
    {
      var move := neighbors[k];
      var nextX := head.x + move.x;
      var nextY := head.y + move.y;
      if nextX >= 0 && nextX < GRID_SIZE && nextY >= 0 && nextY < GRID_SIZE && Cell(nextX, nextY) !in snake {
        FirstSafeSkip(head, snake, k);
        assert Step(head, move) == Cell(nextX, nextY);
        return Some(move);
      }
    }
    FirstSafeSkip(head, snake, |Dirs|);
    return None;
  }
}
