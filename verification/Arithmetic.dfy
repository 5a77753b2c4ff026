/** Division facts that the solver does not find on its own. */
module Arithmetic {

  lemma DivUnique(x: int, d: int, q: int, r: int)
    requires d > 0 && x == d * q + r && 0 <= r < d
    ensures x / d == q && x % d == r
  {
    assert d * (x / d) + x % d == x;
    var e := x / d - q;
    assert d * e == r - x % d by { assert d * e == d * (x / d) - d * q; }
    MultipleIsFar(d, e);
  }

  lemma MultipleIsFar(d: int, e: int)
    requires d > 0
    ensures e >= 1 ==> d * e >= d
    ensures e <= -1 ==> d * e <= -d
  {
    if e >= 1 { assert d * (e - 1) >= 0; }
    if e <= -1 { assert d * (-e - 1) >= 0; }
  }

  lemma MulOrder(d: int, a: int, b: int)
    requires d > 0
    ensures a <= b ==> d * a <= d * b
  {
    if a <= b { assert d * (b - a) >= 0; }
  }

  lemma ModMod(x: int, b: int, j: int)
    requires b > 0 && j > 0
    ensures b * j > 0 && x % (b * j) % b == x % b
  {
    var m := b * j;
    assert x == m * (x / m) + x % m;
    assert m * (x / m) == b * (j * (x / m));
    var y := x % m;
    assert x == b * (j * (x / m) + y / b) + y % b by {
      assert b * (j * (x / m) + y / b) == b * (j * (x / m)) + b * (y / b);
      assert y == b * (y / b) + y % b;
    }
    DivUnique(x, b, j * (x / m) + y / b, y % b);
  }

  lemma DivDiv(x: int, a: int, b: int)
    requires a > 0 && b > 0
    ensures a * b > 0 && x / (a * b) == x / a / b
  {
    var q := x / a / b;
    var r := (x / a % b) * a + x % a;
    calc {
      x;
      a * (x / a) + x % a;
      a * (b * q + x / a % b) + x % a;
      { assert a * (b * q + x / a % b) == a * (b * q) + a * (x / a % b); assert a * (b * q) == (a * b) * q; }
      (a * b) * q + r;
    }
    assert (x / a % b) * a <= (b - 1) * a;
    assert (b - 1) * a == b * a - a;
    assert a * b == b * a;
    DivUnique(x, a * b, q, r);
  }

  /** Removing a multiple of m = a * b first does not change the quotient by a modulo b. */
  lemma DivModMod(x: int, a: int, b: int)
    requires a > 0 && b > 0
    ensures a * b > 0 && x % (a * b) / a == x / a % b
  {
    DivDiv(x, a, b);
    var m := a * b;
    var y := x % m;
    assert x == m * (x / m) + y;
    assert m * (x / m) == a * (b * (x / m));
    assert y == a * (x / a - b * (x / m)) + x % a by {
      assert a * (x / a - b * (x / m)) == a * (x / a) - a * (b * (x / m));
    }
    DivUnique(y, a, x / a - b * (x / m), x % a);
    assert x / a - b * (x / a / b) == x / a % b;
  }
}
