// Minimum, maximum and floor division. Dafny's `/` is the floor for every positive divisor; the lemmas
// below are the facts about it that the frame, sweep and schedule proofs share.

module FloorArithmetic {

  function Min(a: int, b: int): int {
    if a < b then a else b
  }

  function Max(a: int, b: int): int {
    if a < b then b else a
  }

  lemma CancelFactor(x: real, y: real, b: real)
    requires b > 0.0
    ensures x * b <= y * b <==> x <= y
  {
    if x <= y {
      assert (y - x) * b >= 0.0;
    } else {
      assert (x - y) * b > 0.0;
    }
  }

  /** Math.floor of an exact quotient is integer floor division. */
  lemma FloorOfQuotient(a: int, b: int)
    requires b > 0
    ensures (a as real / b as real).Floor == a / b
  {
    var x, q := a as real / b as real, a / b;
    assert x * b as real == a as real;
    assert a == b * q + a % b;
    assert (b * q) as real == q as real * b as real;
    CancelFactor(q as real, x, b as real);
    assert (b * q + b) as real == (q as real + 1.0) * b as real;
    CancelFactor(q as real + 1.0, x, b as real);
    assert q as real <= x < q as real + 1.0;
  }

  /** Math.ceil of an exact quotient. */
  lemma CeilOfQuotient(a: int, b: int)
    requires b > 0
    ensures -(-(a as real / b as real)).Floor == (a + b - 1) / b
  {
    FloorOfQuotient(-a, b);
    assert -(a as real / b as real) == (-a) as real / b as real;
    var q := (-a) / b;
    assert -a == b * q + (-a) % b;
    assert a + b - 1 == b * (-q) + (b - 1 - (-a) % b);
    DivUnique(a + b - 1, b, -q);
  }

  lemma DivBounds(a: int, b: int)
    requires b > 0
    ensures b * (a / b) <= a < b * (a / b) + b
  {
  }

  /** b * k reaches above a exactly when k is above the floor of a / b. */
  lemma DivGalois(a: int, b: int, k: int)
    requires b > 0
    ensures b * k > a <==> k > a / b
    ensures b * k <= a <==> k <= a / b
  {
    var q := a / b;
    assert a == b * q + a % b;
    if k > q {
      assert b * k >= b * (q + 1);
    } else {
      assert b * k <= b * q;
    }
  }

  lemma DivUnique(a: int, b: int, q: int)
    requires b > 0
    requires b * q <= a < b * q + b
    ensures a / b == q
  {
    DivGalois(a, b, q);
    DivGalois(a, b, q + 1);
  }

  lemma DivMonotone(a: int, a': int, b: int)
    requires b > 0
    requires a <= a'
    ensures a / b <= a' / b
  {
    DivGalois(a', b, a / b);
    DivBounds(a, b);
  }

  lemma Associate(a: int, b: int, c: int)
    ensures (a * b) * c == a * (b * c)
  {
  }

  lemma NestedGalois(a: int, b: int, c: int, k: int)
    requires b > 0 && c > 0 && b * c > 0
    ensures k <= a / (b * c) <==> k <= (a / b) / c
  {
    DivGalois(a, b * c, k);
    Associate(b, c, k);
    DivGalois(a, b, c * k);
    DivGalois(a / b, c, k);
  }

  /** Two nested floors are one floor. */
  lemma NestedDiv(a: int, b: int, c: int)
    requires b > 0 && c > 0
    ensures b * c > 0
    ensures (a / b) / c == a / (b * c)
  {
    ProductSign(b, c);
    NestedGalois(a, b, c, a / (b * c));
    NestedGalois(a, b, c, (a / b) / c);
  }

  /** A multiple of the divisor passes through the floor. */
  lemma DivShift(a: int, b: int, k: int)
    requires b > 0
    ensures (a + b * k) / b == a / b + k
  {
    DivBounds(a, b);
    assert b * (a / b + k) == b * (a / b) + b * k;
    DivUnique(a + b * k, b, a / b + k);
  }

  lemma ModShift(a: int, b: int, k: int)
    requires b > 0
    ensures (a + b * k) % b == a % b
  {
    DivShift(a, b, k);
    assert a + b * k == b * ((a + b * k) / b) + (a + b * k) % b;
    assert a == b * (a / b) + a % b;
    assert b * (a / b + k) == b * (a / b) + b * k;
  }

  /** The remainder by a product splits into a quotient digit and a remainder. */
  lemma ModSplit(a: int, b: int, n: int)
    requires b > 0 && n > 0
    ensures b * n > 0
    ensures a % (b * n) == a / b % n * b + a % b
  {
    var p, q := a / b, a / b / n;
    var digit := p % n;
    ProductSign(n, b);
    Associate(b, n, q);
    assert p == n * q + digit;
    assert b * p == b * (n * q) + b * digit;
    LargerMultiple(digit, n, b);
    ProductSign(digit, b);
    DivUnique(a, b * n, q);
    assert a == (b * n) * q + a % (b * n);
  }

  lemma ProductSign(a: int, b: int)
    requires a >= 0 && b > 0
    ensures a * b >= 0 && (a * b == 0 <==> a == 0)
  {
    if a > 0 {
      assert a * b >= b;
    }
  }

  lemma Distribute(a: int, b: int, n: int)
    ensures (a - b) * n == a * n - b * n
  {
  }

  lemma LargerMultiple(a: int, b: int, n: int)
    requires n > 0 && a < b
    ensures a * n + n <= b * n
  {
    ProductSign(b - a - 1, n);
    Distribute(b - a - 1, 0, n);
    Distribute(b - a, 1, n);
    Distribute(b, a, n);
  }

  /** Steps shorter than the circle end at different places. */
  lemma DifferentSteps(a: int, x: int, y: int, n: int)
    requires n > 0 && 0 <= x < y
    requires y - x < n
    ensures (a + x) % n != (a + y) % n
  {
    var k := (a + y) / n - (a + x) / n;
    DivUnique(y - x, n, 0);
    DivUnique(y - x - 1, n, 0);
    DivGalois(y - x, n, k);
    DivGalois(y - x - 1, n, k);
    Distribute((a + y) / n, (a + x) / n, n);
    assert a + y == n * ((a + y) / n) + (a + y) % n;
    assert a + x == n * ((a + x) / n) + (a + x) % n;
  }
}
