/** ui.py: the sign test `opposite`. */
module Ui {
  /**
   * `opposite(x, y)`: `x` is negative and `y` positive, or the reverse;
   * that is, their product is negative.
   */
  function Opposite(x: real, y: real): (r: bool)
    ensures r <==> x * y < 0.0
  {
    NegativeProduct(x, y);
    (x < 0.0 && y > 0.0) || (x > 0.0 && y < 0.0)
  }

  /** The product of two numbers is negative exactly when their signs are strictly opposite. */
  lemma NegativeProduct(x: real, y: real)
    ensures x * y < 0.0 <==> (x < 0.0 && y > 0.0) || (x > 0.0 && y < 0.0)
  {
    if x < 0.0 && y < 0.0 {
      assert (-x) * (-y) > 0.0;
    } else if x > 0.0 && y > 0.0 {
      assert x * y > 0.0;
    } else if x < 0.0 && y > 0.0 {
      assert (-x) * y > 0.0;
    } else if x > 0.0 && y < 0.0 {
      assert x * (-y) > 0.0;
    }
  }

  /** The test does not depend on the order of its arguments. */
  lemma OppositeSymmetric(x: real, y: real)
    ensures Opposite(x, y) == Opposite(y, x)
  {
  }

  /** Zero is opposite to nothing. */
  lemma OppositeZero(x: real, y: real)
    requires x == 0.0 || y == 0.0
    ensures !Opposite(x, y)
  {
  }

  /** Numbers of the same strict sign are not opposite. */
  lemma OppositeSameSign(x: real, y: real)
    requires (x > 0.0 && y > 0.0) || (x < 0.0 && y < 0.0)
    ensures !Opposite(x, y)
  {
  }
}
