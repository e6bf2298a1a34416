// The value types shared by the game canvas and the touch controls:
// a grid cell, the four headings, and an optional value for the fields
// that may hold `null`.
module GameTypes {

  datatype Option<T> = None | Some(value: T)

  /** A grid cell; x grows to the right, y grows downwards. */
  datatype Point = Point(x: int, y: int)

  datatype Direction = Up | Down | Left | Right

  /** The heading that points the other way. */
  function Opposite(d: Direction): (r: Direction)
    ensures r != d
    ensures UnitX(r) == -UnitX(d) && UnitY(r) == -UnitY(d)
  {
    match d
    case Up => Down
    case Down => Up
    case Left => Right
    case Right => Left
  }

  /** The reversal test of the input handlers, written as its four cases. */
  predicate IsReversal(current: Direction, wanted: Direction)
    ensures IsReversal(current, wanted) <==> wanted == Opposite(current)
  {
    || (current == Up && wanted == Down)
    || (current == Down && wanted == Up)
    || (current == Left && wanted == Right)
    || (current == Right && wanted == Left)
  }

  /** Horizontal component of the unit move of a heading. */
  function UnitX(d: Direction): int
  {
    match d
    case Left => -1
    case Right => 1
    case _ => 0
  }

  /** Vertical component of the unit move of a heading (down is +1). */
  function UnitY(d: Direction): int
  {
    match d
    case Up => -1
    case Down => 1
    case _ => 0
  }

  /** The cell one step from `p` in direction `d`. */
  function Step(p: Point, d: Direction): (q: Point)
    ensures q.x - p.x == UnitX(d) && q.y - p.y == UnitY(d)
    ensures q != p
  {
    match d
    case Up => p.(y := p.y - 1)
    case Down => p.(y := p.y + 1)
    case Left => p.(x := p.x - 1)
    case Right => p.(x := p.x + 1)
  }

  /** Reversal is symmetric: a heading is the reverse of another exactly when that one is its reverse. */
  lemma ReversalSymmetric(a: Direction, b: Direction)
    ensures IsReversal(a, b) <==> IsReversal(b, a)
  {
  }

  /** Stepping in the opposite heading undoes a step. */
  lemma StepBack(p: Point, d: Direction)
    ensures Step(Step(p, d), Opposite(d)) == p
  {
  }
}
