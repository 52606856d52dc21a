/**
 * Headings of the snake, in degrees: 0 is up, 90 right, 180 down, 270 left.
 * Button A turns left (+270 modulo 360), button B turns right (+90 modulo 360).
 */
module Heading {

  const UP: int := 0
  const RIGHT: int := 90
  const DOWN: int := 180
  const LEFT: int := 270

  /** The four canonical headings. */
  predicate IsHeading(d: int) {
    d == UP || d == RIGHT || d == DOWN || d == LEFT
  }

  /** A full turn, the modulus of both button handlers. */
  const FULL_TURN: int := 360

  /**
   * The remainder of TypeScript's `d % 360`, which truncates toward zero; its
   * sign follows the dividend. Dafny's own `%` is Euclidean and never negative.
   * The three clauses determine the result uniquely.
   */
  function JsRem360(a: int): (r: int)
    ensures a >= 0 ==> 0 <= r < FULL_TURN
    ensures a < 0 ==> -FULL_TURN < r <= 0
    ensures (a - r) % FULL_TURN == 0
  {
    if a >= 0 then a % FULL_TURN else -((-a) % FULL_TURN)
  }

  /** Heading after a press of button A. */
  function TurnLeft(d: int): (r: int)
    ensures IsHeading(d) ==> IsHeading(r)
    ensures IsHeading(d) ==> r == (if d == UP then LEFT else d - 90)
  {
    JsRem360(d + 270)
  }

  /** Heading after a press of button B. */
  function TurnRight(d: int): (r: int)
    ensures IsHeading(d) ==> IsHeading(r)
    ensures IsHeading(d) ==> r == (if d == LEFT then UP else d + 90)
  {
    JsRem360(d + 90)
  }

  /** The heading facing the other way: two right turns. */
  function Opposite(d: int): (r: int)
    ensures IsHeading(d) ==> IsHeading(r) && r != d
    ensures IsHeading(d) ==> r == (d + 180) % 360
  {
    TurnRight(TurnRight(d))
  }

  /** A left turn followed by a right turn restores any heading in [0, 360). */
  lemma LeftThenRight(d: int)
    requires 0 <= d < 360
    ensures TurnRight(TurnLeft(d)) == d
  {
    if d < 90 {
      assert TurnLeft(d) == d + 270;
      assert TurnRight(d + 270) == (d + 360) % 360;
    } else {
      assert TurnLeft(d) == d - 90;
    }
  }

  /** A right turn followed by a left turn restores any heading in [0, 360). */
  lemma RightThenLeft(d: int)
    requires 0 <= d < 360
    ensures TurnLeft(TurnRight(d)) == d
  {
    if d < 270 {
      assert TurnRight(d) == d + 90;
      assert TurnLeft(d + 90) == (d + 360) % 360;
    } else {
      assert TurnRight(d) == d - 270;
    }
  }

  /** Four turns in the same direction come back to the starting heading. */
  lemma FourTurnsRestore(d: int)
    requires IsHeading(d)
    ensures TurnRight(TurnRight(TurnRight(TurnRight(d)))) == d
    ensures TurnLeft(TurnLeft(TurnLeft(TurnLeft(d)))) == d
  {
  }
}
