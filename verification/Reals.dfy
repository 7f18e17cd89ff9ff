/** Real arithmetic the other modules share. `Times` names a product, so that a proof can keep it folded. */
module Reals {

  function Abs(x: real): real {
    if x < 0.0 then -x else x
  }

  function Times(x: real, y: real): (r: real)
    ensures (x > 0.0 && y > 0.0) || (x < 0.0 && y < 0.0) ==> r > 0.0
    ensures x == 0.0 || y == 0.0 ==> r == 0.0
  {
    assert x < 0.0 && y < 0.0 ==> x * y == (-x) * (-y);
    x * y
  }

  lemma TimesIsLinear(x: real, y: real, z: real)
    ensures Times(x, y + z) == Times(x, y) + Times(x, z)
    ensures Times(-x, y) == -Times(x, y) == Times(x, -y)
    ensures Times(x, y) == Times(y, x)
  {
  }

  function Square(x: real): (r: real)
    ensures r >= 0.0
    ensures r > 0.0 <==> x != 0.0
  {
    Times(x, x)
  }

  /** A factor of a product has the sign of the product, the other factor being positive. */
  lemma SignOfFactor(n: real, x: real)
    requires n > 0.0
    ensures n * x >= 0.0 <==> x >= 0.0
    ensures n * x > 0.0 <==> x > 0.0
  {
    if x < 0.0 {
      assert n * (-x) > 0.0;
    }
  }
}
