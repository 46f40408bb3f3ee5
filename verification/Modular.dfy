/** Integer remainders, as far as the buffer and phase arithmetic needs them. */
module Modular {

  lemma SmallMultiple(d: int, m: int)
    requires m > 0
    ensures d >= 1 ==> d * m >= m
    ensures d <= -1 ==> d * m <= -m
  {
    if d >= 1 { assert (d - 1) * m >= 0; } else if d <= -1 { assert (-d - 1) * m >= 0; }
  }

  lemma ModUnique(x: int, m: int, q: int, r: int)
    requires m > 0 && x == q * m + r && 0 <= r < m
    ensures x % m == r
  {
    var d := x / m - q;
    assert x == (x / m) * m + x % m;
    assert d * m == r - x % m;
    SmallMultiple(d, m);
  }

  lemma ModOfSum(x: int, y: int, m: int)
    requires m > 0
    ensures (x % m + y % m) % m == (x + y) % m
    ensures (x % m + y) % m == (x + y) % m
  {
    ModOfShift(x, y, m);
    ModOfShift(y, x % m, m);
  }

  lemma ModOfShift(x: int, y: int, m: int)
    requires m > 0
    ensures (x % m + y) % m == (x + y) % m
  {
    var s := x % m + y;
    var q := x / m + s / m;
    assert x == (x / m) * m + x % m && s == (s / m) * m + s % m;
    assert q * m == (x / m) * m + (s / m) * m;
    ModUnique(x + y, m, q, s % m);
  }
}
