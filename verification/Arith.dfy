// Arithmetic shared by the components.
module Arith {

  // C's integer division, which truncates toward zero.
  function TruncDiv(a: int, b: int): int
    requires b > 0
  {
    if a >= 0 then a / b else -((-a) / b)
  }

  function Magnitude(x: int): int {
    if x < 0 then -x else x
  }

  function Abs(x: real): real {
    if x < 0.0 then -x else x
  }

  lemma TwiceProduct(p: nat, x: nat)
    ensures 2 * p * x == 2 * (p * x)
  {
  }
}
