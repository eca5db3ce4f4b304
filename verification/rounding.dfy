/**
  `round(x, 4)` on exact reals: round half to even at four decimal places.
 */
module Rounding {

  const Scale: real := 10000.0

  function Round4(x: real): (r: real)
    ensures -0.5 / Scale <= r - x <= 0.5 / Scale
    ensures (r * Scale).Floor as real == r * Scale
  {
    var s := x * Scale;
    var f := s.Floor;
    var frac := s - f as real;
    var n := if frac < 0.5 then f
             else if frac > 0.5 then f + 1
             else if f % 2 == 0 then f
             else f + 1;
    assert -0.5 <= n as real - s <= 0.5;
    n as real / Scale
  }
}
