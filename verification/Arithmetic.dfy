/** Division with a divisor that is not a constant: the few facts the other modules need. */
module Arithmetic {

  lemma MulSign(n: nat, d: int)
    ensures d >= 1 ==> n * d >= n
    ensures d <= -1 ==> n * d + n <= 0
    ensures d == 0 ==> n * d == 0
    decreases if d < 0 then -d else d
  {
    if d > 1 {
      MulSign(n, d - 1);
      assert n * d == n * (d - 1) + n;
    } else if d < -1 {
      MulSign(n, d + 1);
      assert n * d == n * (d + 1) - n;
    }
  }

  /** A quotient and a remainder in range are the quotient and the remainder. */
  lemma DivModUnique(n: nat, q: int, r: nat)
    requires r < n
    ensures (n * q + r) % n == r && (n * q + r) / n == q
  {
    var x := n * q + r;
    assert x == n * (x / n) + x % n;
    assert n * (x / n - q) == n * (x / n) - n * q;
    MulSign(n, x / n - q);
  }

  lemma ModSmall(x: nat, n: nat)
    requires x < n
    ensures x % n == x
  {
    DivModUnique(n, 0, x);
  }

  /** The remainder of a sum. */
  lemma ModAdd(x: nat, y: nat, n: nat)
    requires n > 0
    ensures (x + y) % n == if x % n + y % n < n then x % n + y % n else x % n + y % n - n
  {
    assert x == n * (x / n) + x % n && y == n * (y / n) + y % n;
    assert n * (x / n + y / n) == n * (x / n) + n * (y / n);
    if x % n + y % n < n {
      DivModUnique(n, x / n + y / n, x % n + y % n);
    } else {
      assert n * (x / n + y / n + 1) == n * (x / n + y / n) + n;
      DivModUnique(n, x / n + y / n + 1, x % n + y % n - n);
    }
  }

  /** Going on by less than a turn. */
  lemma ModStep(x: nat, y: nat, n: nat)
    requires y < n
    ensures (x + y) % n == if x % n + y < n then x % n + y else x % n + y - n
  {
    ModSmall(y, n);
    ModAdd(x, y, n);
  }

  /** Two positions less than a turn apart are different points of a ring. */
  lemma ModApart(x: nat, y: nat, n: nat)
    requires x < y < x + n
    ensures x % n != y % n
  {
    ModStep(x, y - x, n);
  }

  /** Folding a position into a ring of q cells of n keeps its place within a cell. */
  lemma ModOfMod(x: nat, n: nat, q: nat)
    requires n > 0 && q > 0 && n * q > 0
    ensures (x % (n * q)) % n == x % n
  {
    var m := n * q;
    var a, b := x / m, x % m;
    assert x == m * a + b;
    assert m * a == n * (q * a);
    assert b == n * (b / n) + b % n;
    assert x == n * (q * a + b / n) + b % n;
    DivModUnique(n, q * a + b / n, b % n);
  }

  /** A number less its remainder is a multiple. */
  lemma ModFloor(x: nat, n: nat)
    requires n > 0
    ensures x % n <= x && (x - x % n) % n == 0
  {
    assert x == n * (x / n) + x % n;
    MulSign(n, x / n);
    DivModUnique(n, x / n, 0);
  }

  lemma MultipleOf(n: nat, q: nat)
    requires n > 0
    ensures (n * q) % n == 0 && (n * q) / n == q
  {
    DivModUnique(n, q, 0);
  }

  /** A multiple of n strictly below n * q leaves room for n more. */
  lemma MultipleBelow(x: nat, n: nat, q: nat)
    requires n > 0 && x % n == 0 && x < n * q
    ensures x + n <= n * q
    ensures x > 0 ==> x >= n
  {
    assert x == n * (x / n);
    assert n * (q - x / n) == n * q - n * (x / n);
    MulSign(n, q - x / n);
    MulSign(n, x / n);
  }
}
