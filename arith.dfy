/** Integer facts shared by the dials and the display: minimum, maximum, and uniqueness of Euclidean division. */
module Arith {
  function Min(a: int, b: int): int { if a <= b then a else b }

  function Max(a: int, b: int): int { if a >= b then a else b }

  /** d * b >= b for every positive multiplier d. */
  lemma {:induction false} MulAtLeast(d: int, b: int)
    requires d >= 1 && b > 0
    ensures d * b >= b
  {
    if d > 1 {
      MulAtLeast(d - 1, b);
      assert d * b == (d - 1) * b + b;
    }
  }

  /** Euclidean division is unique: a == q * b + r with 0 <= r < b fixes q and r. */
  lemma DivModUnique(a: int, b: int, q: int, r: int)
    requires b > 0 && 0 <= r < b && a == q * b + r
    ensures a % b == r && a / b == q
  {
    var q0 := a / b;
    var r0 := a % b;
    assert a == q0 * b + r0;
    var d := q - q0;
    assert d * b == q * b - q0 * b;
    assert d * b == r0 - r;
    if d >= 1 {
      MulAtLeast(d, b);
    } else if d <= -1 {
      MulAtLeast(-d, b);
    }
  }

  /** The remainder of a successor: one more than the remainder, wrapping to 0 at the divisor. */
  lemma ModSucc(x: int, m: int)
    requires m > 0
    ensures (x + 1) % m == (x % m + 1) % m
  {
    var q := x / m;
    var r := x % m;
    if r + 1 < m {
      DivModUnique(x + 1, m, q, r + 1);
      DivModUnique(r + 1, m, 0, r + 1);
    } else {
      DivModUnique(x + 1, m, q + 1, 0);
      DivModUnique(r + 1, m, 1, 0);
    }
  }
}
