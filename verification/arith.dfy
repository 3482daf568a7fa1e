/** Facts about integer multiplication, division and remainder that the solver does not
    find on its own. */
module Arith {

  lemma MulSign(e: int, q: int)
    requires q > 0
    ensures e >= 1 ==> e * q >= q
    ensures e <= -1 ==> e * q <= -q
  {
  }

  /** Euclidean division is unique: a quotient/remainder pair determines the quotient. */
  lemma DivUnique(x: int, q: int, a: int, r: int)
    requires q > 0 && 0 <= r < q && x == a * q + r
    ensures x / q == a
    ensures x % q == r
  {
    var d := x / q;
    var s := x % q;
    assert x == d * q + s;
    assert (d - a) * q == r - s;
    MulSign(d - a, q);
  }

  lemma DivAddMultiple(m: nat, q: nat, v: nat)
    requires q > 0
    ensures (m * q + v) / q == m + v / q
  {
    var d := v / q;
    var r := v % q;
    assert v == d * q + r;
    assert m * q + v == (m + d) * q + r;
    DivUnique(m * q + v, q, m + d, r);
  }

  /** A value below the modulus is its own remainder. */
  lemma ModSmall(a: int, q: int)
    requires 0 <= a < q
    ensures a % q == a && a / q == 0
  {
    DivUnique(a, q, 0, a);
  }

  /** A value in `[q, 2q)` wraps around once. */
  lemma ModOnce(a: int, q: int)
    requires q > 0 && q <= a < 2 * q
    ensures a % q == a - q
  {
    DivUnique(a, q, 1, a - q);
  }

  /** Adding the modulus does not change the remainder. */
  lemma ModAddPeriod(a: int, q: int)
    requires q > 0
    ensures (a + q) % q == a % q
  {
    assert a == (a / q) * q + a % q;
    DivUnique(a + q, q, a / q + 1, a % q);
  }

  /** The remainder is below the modulus, and a value already below it is unchanged. */
  lemma ModBounds(a: int, q: int)
    requires q > 0 && a >= 0
    ensures 0 <= a % q < q
    ensures a < q ==> a % q == a
  {
    if a < q {
      ModSmall(a, q);
    }
  }

  /** Multiplying by a non-negative factor keeps the order. */
  lemma MulMonotone(a: int, b: int, k: int)
    requires a <= b && k >= 0
    ensures a * k <= b * k
  {
    assert b * k - a * k == (b - a) * k;
  }

  /** Counting up by one: the remainder steps up by one or wraps to zero. */
  lemma ModStep(a: int, q: int)
    requires q > 0
    ensures (a + 1) % q == if a % q == q - 1 then 0 else a % q + 1
  {
    assert a == (a / q) * q + a % q;
    if a % q == q - 1 {
      DivUnique(a + 1, q, a / q + 1, 0);
    } else {
      DivUnique(a + 1, q, a / q, a % q + 1);
    }
  }

  /** Row `y` of a `width`-wide, `height`-high grid ends within the grid. */
  lemma RowEnd(y: nat, width: nat, height: nat)
    requires y < height
    ensures y * width + width <= width * height
    ensures (y + 1) * width == y * width + width
  {
    MulMonotone(y + 1, height, width);
    assert (y + 1) * width == y * width + width;
    assert height * width == width * height;
  }

  /** Row-major cell indices are in range and distinct cells have distinct indices. */
  lemma CellIndex(x: int, y: int, width: nat, height: nat)
    requires 0 <= x < width && 0 <= y < height
    ensures 0 <= x + y * width < width * height
  {
    RowEnd(y, width, height);
  }

  lemma CellInjective(x: int, y: int, x': int, y': int, width: nat)
    requires 0 <= x < width && 0 <= x' < width
    requires x + y * width == x' + y' * width
    ensures x == x' && y == y'
  {
    assert (y - y') * width == x' - x;
    MulSign(y - y', width);
  }
}
