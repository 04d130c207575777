/**
 * JavaScript integer arithmetic used by game.js.
 * `Math.floor(a / b)` rounds towards minus infinity and `a % b` truncates towards zero,
 * so its remainder takes the sign of `a`; Dafny's `%` is Euclidean and never negative.
 */
module JsMath {

  /** `Math.floor(a / b)` for a positive divisor. */
  function FloorDiv(a: int, b: int): int
    requires b > 0
  {
    a / b
  }

  /** `FloorDiv` is the largest `q` with `b * q <= a`, for negative `a` too. */
  lemma FloorDivIsFloor(a: int, b: int)
    requires b > 0
    ensures b * FloorDiv(a, b) <= a < b * FloorDiv(a, b) + b
  {
  }

  /**
   * JavaScript's `a % b` for a positive divisor: it agrees with the Euclidean remainder
   * on non-negative operands and is odd in `a` (so `-1 % 4` is `-1`, not `3`).
   */
  function Rem(a: int, b: int): int
    requires b > 0
  {
    if a >= 0 then a % b else -((-a) % b)
  }

  /** The remainder takes the sign of `a`, and `a % b` and `(-a) % b` are opposite. */
  lemma RemSign(a: int, b: int)
    requires b > 0
    ensures a >= 0 ==> 0 <= Rem(a, b) < b && Rem(a, b) == a % b
    ensures a < 0 ==> -b < Rem(a, b) <= 0 && Rem(a, b) == -Rem(-a, b)
  {
  }

  /** `Math.abs`. */
  function Abs(x: int): (r: nat)
    ensures r == x || r == -x
  {
    if x < 0 then -x else x
  }
}
