/**
 * Integer 2-D vectors and the four unit directions of the snake game,
 * together with the rule that decides whether a key press may turn the snake.
 */
module Vectors {

  /** A grid position or a step between two grid positions. */
  datatype Vector = Vector(x: int, y: int) {

    function Add(other: Vector): Vector
    {
      Vector(x + other.x, y + other.y)
    }

    /** The offset that leads from `other` to this vector. */
    function Subtract(other: Vector): (r: Vector)
      ensures other.Add(r) == this
    {
      Vector(x - other.x, y - other.y)
    }

    /** Component-wise comparison, which is exactly structural equality. */
    function Eq(other: Vector): (r: bool)
      ensures r <==> this == other
    {
      x == other.x && y == other.y
    }

    /** The additive inverse. */
    function Negate(): Vector
    {
      Vector(-x, -y)
    }
  }

  const RIGHT := Vector(1, 0)
  const DOWN := Vector(0, 1)
  const LEFT := Vector(-1, 0)
  const UP := Vector(0, -1)

  /** One of the four directions the key handler can request. */
  predicate IsDirection(d: Vector) {
    d == RIGHT || d == DOWN || d == LEFT || d == UP
  }

  /** `Negate` is the additive inverse, undoes itself, and moves every non-zero vector. */
  lemma NegateIsInverse(v: Vector)
    ensures v.Add(v.Negate()) == Vector(0, 0)
    ensures v.Negate().Negate() == v
    ensures v != Vector(0, 0) ==> v.Negate() != v
  {
  }

  lemma AddSubtractRoundTrip(a: Vector, b: Vector)
    ensures a.Add(b).Subtract(a) == b
    ensures a.Add(b.Subtract(a)) == b
  {
  }

  predicate SameDirection(current: Vector, next: Vector) {
    current.Eq(next)
  }

  predicate OppositeDirection(current: Vector, next: Vector) {
    current.Eq(next.Negate())
  }

  /**
   * A requested direction is accepted unless it repeats or reverses the current
   * one; between two of the four directions that means exactly when one is
   * horizontal and the other vertical.
   */
  predicate ValidDirectionChange(current: Vector, next: Vector)
    ensures IsDirection(current) && IsDirection(next) ==>
              (ValidDirectionChange(current, next) <==> (current.x == 0) != (next.x == 0))
  {
    !(SameDirection(current, next) || OppositeDirection(current, next))
  }

  /** For any vector, neither keeping it nor reversing it counts as a change. */
  lemma RepeatAndReverseRefused(current: Vector)
    ensures !ValidDirectionChange(current, current)
    ensures !ValidDirectionChange(current, current.Negate())
  {
  }

  /** A valid change always turns by a right angle; it never repeats or reverses. */
  lemma ValidChangeTurns(current: Vector, next: Vector)
    requires IsDirection(current) && IsDirection(next)
    requires ValidDirectionChange(current, next)
    ensures next != current && next != current.Negate()
    ensures (current.x == 0) <==> (next.y == 0)
  {
  }
}
