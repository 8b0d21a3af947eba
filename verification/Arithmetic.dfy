/** Division facts the solver does not find by itself. */
module Arithmetic {

  lemma Scale(d: int, a: int)
    requires a > 0
    ensures d >= 1 ==> d * a >= a
    ensures d <= -1 ==> d * a <= -a
    ensures d == 0 ==> d * a == 0
  {
  }

  lemma DivModIs(z: int, q: int, r: int, a: int)
    requires a > 0 && z == q * a + r && 0 <= r < a
    ensures z / a == q && z % a == r
  {
    var d := q - z / a;
    assert d * a == q * a - (z / a) * a;
    Scale(d, a);
  }

  lemma ModSum(x: int, y: int, a: int)
    requires a > 0
    ensures (x + y) % a == if x % a + y % a < a then x % a + y % a else x % a + y % a - a
  {
    var q := x / a + y / a;
    assert q * a == (x / a) * a + (y / a) * a;
    if x % a + y % a < a {
      DivModIs(x + y, q, x % a + y % a, a);
    } else {
      assert (q + 1) * a == q * a + a;
      DivModIs(x + y, q + 1, x % a + y % a - a, a);
    }
  }

  /** The largest multiple of a up to n is n - n % a. */
  lemma MultipleBelow(m: int, n: int, a: int)
    requires a > 0 && m % a == 0 && m <= n
    ensures m <= n - n % a
  {
    var d := m / a - n / a;
    assert d * a == (m / a) * a - (n / a) * a;
    Scale(d, a);
  }

  lemma MultiplesApart(x: int, y: int, a: int)
    requires a > 0 && x % a == 0 && y % a == 0 && x < y
    ensures x + a <= y
  {
    var d := y / a - x / a;
    assert d * a == y / a * a - x / a * a == y - x;
    Scale(d, a);
  }

  lemma MultipleSum(x: int, y: int, a: int)
    requires a > 0 && x % a == 0 && y % a == 0
    ensures (x + y) % a == 0
  {
    ModSum(x, y, a);
  }

  /** A divisor of n divides every multiple of n. */
  lemma DivisorOfMultiple(x: int, n: int, a: int)
    requires a > 0 && n > 0 && n % a == 0 && x % n == 0
    ensures x % a == 0
  {
    var k, m := x / n, n / a;
    assert x == k * n && n == m * a;
    assert x == k * (m * a) == (k * m) * a;
    DivModIs(x, k * m, 0, a);
  }

  lemma ScaledMultiple(x: int, m: int, a: int)
    requires a > 0 && m > 0 && x % m == 0
    ensures m * a > 0 && (x * a) % (m * a) == 0
  {
    var t := x / m;
    assert x == t * m;
    assert x * a == (t * m) * a == t * (m * a);
    Scale(m, a);
    DivModIs(x * a, t, 0, m * a);
  }

  function PowerOfTwo(n: nat): (p: int)
    ensures p >= 1
  {
    if n == 0 then 1 else 2 * PowerOfTwo(n - 1)
  }

  ghost predicate IsPowerOfTwo(a: int) {
    exists n: nat :: a == PowerOfTwo(n)
  }

  lemma {:induction false} PowersGrow(m: nat, n: nat)
    requires m <= n
    ensures PowerOfTwo(m) <= PowerOfTwo(n) && PowerOfTwo(n) % PowerOfTwo(m) == 0
    decreases n
  {
    if m < n {
      PowersGrow(m, n - 1);
      MultipleSum(PowerOfTwo(n - 1), PowerOfTwo(n - 1), PowerOfTwo(m));
    }
  }

  /** Of two powers of two the smaller divides the larger, and its double, too, when they differ. */
  lemma PowerDivides(a: int, b: int)
    requires IsPowerOfTwo(a) && IsPowerOfTwo(b) && a <= b
    ensures b % a == 0 && (a < b ==> b % (2 * a) == 0 && 2 * a <= b)
  {
    var m: nat :| a == PowerOfTwo(m);
    var n: nat :| b == PowerOfTwo(n);
    if n < m {
      PowersGrow(n, m);
    } else {
      PowersGrow(m, n);
    }
    if a < b {
      PowersGrow(m + 1, n);
    }
  }

  /** The largest power of two that divides n. */
  function PowerIn(n: int): (p: int)
    requires n > 0
    ensures p > 0
    decreases n
  {
    if n % 2 == 1 then 1 else 2 * PowerIn(n / 2)
  }

  lemma DoubleDivides(m: int, p: int)
    requires p > 0 && m % p == 0
    ensures (2 * m) % (2 * p) == 0 && 2 * m / (2 * p) == m / p
  {
    var q := m / p;
    assert m == q * p;
    assert 2 * m == q * (2 * p);
    DivModIs(2 * m, q, 0, 2 * p);
  }

  lemma {:induction false} PowerInDivides(n: int)
    requires n > 0
    ensures IsPowerOfTwo(PowerIn(n)) && n % PowerIn(n) == 0 && n / PowerIn(n) % 2 == 1
    decreases n
  {
    if n % 2 == 1 {
      assert PowerOfTwo(0) == 1;
    } else {
      PowerInDivides(n / 2);
      var p := PowerIn(n / 2);
      var e: nat :| p == PowerOfTwo(e);
      assert PowerOfTwo(e + 1) == 2 * p;
      DoubleDivides(n / 2, p);
    }
  }

  lemma {:induction false} OddFactorIsOne(q: int, m: int, n: nat)
    requires q > 0 && m > 0 && q % 2 == 1 && q * m == PowerOfTwo(n)
    ensures q == 1
  {
    if n == 0 {
      ProductOne(q, m);
    } else {
      OddKeepsParity(q, m);
      HalfProduct(q, m);
      OddFactorIsOne(q, m / 2, n - 1);
    }
  }

  lemma ProductOne(q: int, m: int)
    requires q > 0 && m > 0 && q * m == 1
    ensures q == 1
  {
    Scale(q - 1, m);
    assert (q - 1) * m == q * m - m;
  }

  lemma OddKeepsParity(q: int, m: int)
    requires q % 2 == 1
    ensures (q * m) % 2 == m % 2
  {
    var a := q / 2;
    assert q == 2 * a + 1;
    assert q * m == 2 * (a * m) + m;
  }

  lemma HalfProduct(q: int, m: int)
    ensures m % 2 == 0 ==> q * (m / 2) * 2 == q * m
  {
  }

  /** A divisor of a power of two is the power itself or divides its half. */
  lemma DivisorOfPower(a: int, n: nat)
    requires a > 0 && PowerOfTwo(n + 1) % a == 0
    ensures a == PowerOfTwo(n + 1) || PowerOfTwo(n) % a == 0
  {
    var q := PowerOfTwo(n + 1) / a;
    assert q * a == PowerOfTwo(n + 1);
    if q % 2 == 0 {
      HalfProduct(a, q);
      assert a * q == q * a && a * (q / 2) == q / 2 * a;
      DivModIs(PowerOfTwo(n), q / 2, 0, a);
    } else {
      Scale(-q, a);
      OddFactorIsOne(q, a, n + 1);
    }
  }
}
