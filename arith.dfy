/** Facts about Euclidean division by a positive divisor, used to relate
    a linear element offset to a (buffer, slot) pair. */
module Arith {

  /** Division and remainder are determined by any decomposition
      x == q * d + r with 0 <= r < d. */
  lemma DivModUnique(x: int, d: int, q: int, r: int)
    requires d > 0 && 0 <= r < d && x == q * d + r
    ensures x / d == q && x % d == r
  {
    var q', r' := x / d, x % d;
    assert (q' - q) * d == r - r' by {
      assert x == q' * d + r';
      assert (q' - q) * d == q' * d - q * d;
    }
    MulSign(q' - q, d);
  }

  /** A non-zero multiple of d is at least d away from zero. */
  lemma MulSign(k: int, d: int)
    requires d > 0
    ensures k >= 1 ==> k * d >= d
    ensures k <= -1 ==> k * d <= -d
  {
    if k >= 1 {
      MulMono(1, k, d);
    } else if k <= -1 {
      MulMono(k, -1, d);
    }
  }

  /** Multiplication distributes over subtraction. */
  lemma MulSubDistrib(a: int, b: int, d: int)
    ensures (a - b) * d == a * d - b * d
  {
  }

  lemma MulMono(a: int, b: int, d: int)
    requires a <= b && d > 0
    ensures a * d <= b * d
  {
    assert b * d - a * d == (b - a) * d;
  }

  /** Division by a positive divisor is monotonic. */
  lemma DivMono(x: int, y: int, d: int)
    requires d > 0 && x <= y
    ensures x / d <= y / d
  {
    var k := x / d - y / d;
    assert k * d == (x - x % d) - (y - y % d) by {
      assert k * d == x / d * d - y / d * d;
    }
    MulSign(k, d);
  }

  /** Splitting an offset a + k at a buffer boundary: the quotient of
      a + k is that of a plus the quotient of (a % d) + k. */
  lemma SplitOffset(a: int, k: int, d: int)
    requires d > 0
    ensures (a + k) / d == a / d + (a % d + k) / d
    ensures (a + k) % d == (a % d + k) % d
  {
    var q, r := (a % d + k) / d, (a % d + k) % d;
    assert a % d + k == q * d + r;
    assert a + k == (a / d + q) * d + r by {
      assert a == a / d * d + a % d;
      assert (a / d + q) * d == a / d * d + q * d;
    }
    DivModUnique(a + k, d, a / d + q, r);
  }

  /** A value below the divisor is its own remainder. */
  lemma SmallDiv(x: int, d: int)
    requires 0 <= x < d
    ensures x / d == 0 && x % d == x
  {
    DivModUnique(x, d, 0, x);
  }
}
