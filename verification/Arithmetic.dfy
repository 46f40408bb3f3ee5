/** Small facts about numbers that several modules share. */
module Arithmetic {

  function Min(a: int, b: int): int {
    if b < a then b else a
  }

  function Max(a: int, b: int): int {
    if a < b then b else a
  }

  /** A product with a positive factor has the sign of the other one. */
  lemma SignOfFactor(a: real, b: real)
    requires b > 0.0
    ensures a * b >= 0.0 <==> a >= 0.0
    ensures a * b == 0.0 <==> a == 0.0
  {
    if a > 0.0 { assert a * b > 0.0; } else if a < 0.0 { assert (-a) * b > 0.0; }
  }

  lemma ProductGrows(x: real, y: real, f: real)
    requires f > 0.0
    ensures x < y <==> x * f < y * f
    ensures x <= y <==> x * f <= y * f
  {
    SignOfFactor(y - x, f);
    assert (y - x) * f == y * f - x * f;
  }
}
