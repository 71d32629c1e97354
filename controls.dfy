/**
 * Player input: the key names the game understands and the filter that keeps
 * a requested direction from reversing the snake onto itself.
 */
module Controls {
  import opened Optional
  import opened Grid

  /** The direction pointing the opposite way. */
  function Reverse(v: Vec): Vec
  {
    Vec(-v.x, -v.y)
  }

  /** Two axis directions at right angles: one runs along x, the other along y. */
  predicate Perpendicular(a: Vec, b: Vec)
  {
    (a.y == 0 && b.x == 0) || (a.x == 0 && b.y == 0)
  }

  /**
   * The direction change filter: a request along the axis the snake already
   * moves on (the same direction or its reverse) is dropped; any other request
   * is taken.
   */
  function FilterDirection(prev: Vec, requested: Vec): (r: Vec)
    ensures r == prev || r == requested
    ensures IsUnit(prev) && IsUnit(requested) ==>
              IsUnit(r) && r != Reverse(prev) && (r == requested <==> Perpendicular(prev, requested) || requested == prev)
  {
    if requested.x != 0 && prev.x != 0 then prev
    else if requested.y != 0 && prev.y != 0 then prev
    else requested
  }

  /**
   * Two requests between moves are filtered against the direction each one
   * left behind, not against the way the snake last moved: a perpendicular
   * request followed by the reverse of the old direction leaves the snake
   * pointing backwards (moving RIGHT, UP then LEFT ends on LEFT).
   */
  lemma TwoRequestsReverse(prev: Vec, turn: Vec)
    requires IsUnit(prev) && IsUnit(turn) && Perpendicular(prev, turn)
    ensures FilterDirection(FilterDirection(prev, turn), Reverse(prev)) == Reverse(prev)
  {
    UnitIsDirection(prev);
    if prev == UP || prev == DOWN {
      assert turn.y == 0;
    } else {
      assert turn.x == 0;
    }
  }

  /** The direction named by a key: the arrow keys and the on-screen buttons. */
  function KeyDirection(key: string): (d: Option<Vec>)
    ensures d.Some? ==> IsUnit(d.value)
    ensures d == Some(UP) <==> key == "ArrowUp" || key == "UP"
    ensures d == Some(DOWN) <==> key == "ArrowDown" || key == "DOWN"
    ensures d == Some(LEFT) <==> key == "ArrowLeft" || key == "LEFT"
    ensures d == Some(RIGHT) <==> key == "ArrowRight" || key == "RIGHT"
  {
    match key
    case "ArrowUp" => Some(UP)
    case "UP" => Some(UP)
    case "ArrowDown" => Some(DOWN)
    case "DOWN" => Some(DOWN)
    case "ArrowLeft" => Some(LEFT)
    case "LEFT" => Some(LEFT)
    case "ArrowRight" => Some(RIGHT)
    case "RIGHT" => Some(RIGHT)
    case _ => None
  }
}
