// Swipe detection of the touch controls: the start of a touch is recorded,
// and at its end a move of at least 30 pixels along some axis becomes a
// direction along the dominant axis (vertical on a tie).
module TouchControls {
  import opened GameTypes

  /** Smallest move, in pixels, that counts as a swipe. */
  const SwipeThreshold: int := 30

  datatype ClientPos = ClientPos(x: int, y: int)

  function Abs(v: int): nat
  {
    if v < 0 then -v else v
  }

  /** How far a move of (dx, dy) goes in direction `d`. */
  function Reach(d: Direction, dx: int, dy: int): int
  {
    UnitX(d) * dx + UnitY(d) * dy
  }

  /** The direction a touch that moved by (dx, dy) emits, if any. */
  function Swipe(dx: int, dy: int): (r: Option<Direction>)
    ensures r.None? <==> Abs(dx) < SwipeThreshold && Abs(dy) < SwipeThreshold
    ensures r.Some? ==> Reach(r.value, dx, dy) >= SwipeThreshold
    ensures r.Some? ==> forall e :: Reach(e, dx, dy) <= Reach(r.value, dx, dy)
    ensures r.Some? && Abs(dx) == Abs(dy) ==> r.value == Up || r.value == Down
  {
    var absX, absY := Abs(dx), Abs(dy);
    if absX < SwipeThreshold && absY < SwipeThreshold then None
    else if absX > absY then Some(if dx > 0 then Right else Left)
    else Some(if dy > 0 then Down else Up)
  }

  /** The emitted direction is fixed by the contract of Swipe: two directions that both reach
      furthest, at least 30 pixels, with a vertical pick on a tie, are the same. */
  lemma SwipeDetermined(dx: int, dy: int, d: Direction)
    requires Reach(d, dx, dy) >= SwipeThreshold
    requires forall e :: Reach(e, dx, dy) <= Reach(d, dx, dy)
    requires Abs(dx) == Abs(dy) ==> d == Up || d == Down
    ensures Swipe(dx, dy) == Some(d)
  {
  }

  /** A swipe the other way emits the opposite direction. */
  lemma SwipeReverses(dx: int, dy: int)
    ensures Swipe(-dx, -dy) == if Swipe(dx, dy).Some? then Some(Opposite(Swipe(dx, dy).value)) else None
  {
  }

  /** `touchStartRef`: where the current touch began, if it is still being tracked. */
  class TouchTracker {
    var start: Option<ClientPos>

    constructor ()
      ensures start == None
    {
      start := None;
    }

    /** Records the first touch point as the start. */
    method OnTouchStart(x: int, y: int)
      modifies this
      ensures start == Some(ClientPos(x, y))
    {
      start := Some(ClientPos(x, y));
    }

    /** A touch ended at (x, y): without a recorded start nothing happens; otherwise the swipe, if any,
        is emitted and the start is forgotten; a move too short keeps the start. */
    method OnTouchEnd(x: int, y: int) returns (emitted: Option<Direction>)
      modifies this
      ensures old(start).None? ==> emitted == None
      ensures old(start).Some? ==> emitted == Swipe(x - old(start).value.x, y - old(start).value.y)
      ensures emitted.None? ==> start == old(start)
      ensures emitted.Some? ==> start == None
    {
      if start.None? {
        return None;
      }
      var s := start.value;
      var dx := x - s.x;
      var dy := y - s.y;
      var absX, absY := Abs(dx), Abs(dy);
      if absX < SwipeThreshold && absY < SwipeThreshold {
        return None;
      }
      if absX > absY {
        emitted := Some(if dx > 0 then Right else Left);
      } else {
        emitted := Some(if dy > 0 then Down else Up);
      }
      start := None;
    }
  }
}
