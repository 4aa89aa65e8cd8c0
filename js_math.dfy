/** The few JavaScript number operations the colour engine relies on, stated over
    exact reals and unbounded integers. */
module JsMath {

  /** Math.round: the nearest integer, a half rounded towards +infinity. */
  function Round(x: real): (n: int)
    ensures x - 0.5 < n as real <= x + 0.5
  {
    (x + 0.5).Floor
  }

  /** An integer rounds to itself. */
  lemma RoundInteger(n: int)
    ensures Round(n as real) == n
  {
  }

  /** Math.trunc: drops the fraction, towards zero. */
  function Trunc(x: real): (n: int)
    ensures 0.0 <= x ==> n as real <= x < n as real + 1.0
    ensures x < 0.0 ==> n as real - 1.0 < x <= n as real
  {
    if x >= 0.0 then x.Floor else -((-x).Floor)
  }

  /** The `%` operator on integers: the remainder takes the sign of the dividend, and the
      dividend minus the remainder is a whole multiple of the divisor. */
  function IntRem(a: int, n: int): (r: int)
    requires n > 0
    ensures 0 <= a ==> 0 <= r < n
    ensures a < 0 ==> -n < r <= 0
    ensures (a - r) % n == 0
  {
    var r := if a >= 0 then a % n else -((-a) % n);
    MultipleRem(a, r, n);
    r
  }

  lemma MultipleRem(a: int, r: int, n: int)
    requires n > 0
    requires r == if a >= 0 then a % n else -((-a) % n)
    ensures (a - r) % n == 0
  {
    var k := if a >= 0 then a / n else -((-a) / n);
    assert a - r == n * k;
    MultipleMod(k, n);
  }

  lemma MultipleMod(k: int, n: int)
    requires n > 0
    ensures (n * k) % n == 0
  {
    var m := n * k;
    var q, r := m / n, m % n;
    assert m == n * q + r && 0 <= r < n;
    var j := k - q;
    assert n * j == n * k - n * q;
    assert n * j == r;
    if j >= 1 {
      MulNonnegInt(n, j - 1);
    } else if j <= -1 {
      MulNonnegInt(n, -j - 1);
    }
  }

  lemma MulNonnegInt(a: int, b: int)
    requires 0 <= a && 0 <= b
    ensures 0 <= a * b
  {
  }

  /** The `%` operator on non-integral numbers: `x - n * trunc(x / n)`. The remainder takes
      the sign of the dividend, and the dividend minus the remainder is a whole multiple of
      the divisor. */
  function RealRem(x: real, n: real): (r: real)
    requires n > 0.0
    ensures 0.0 <= x ==> 0.0 <= r < n
    ensures x < 0.0 ==> -n < r <= 0.0
    ensures ((x - r) / n).Floor as real == (x - r) / n
  {
    var t := Trunc(x / n) as real;
    ScaledFraction(x, n, t);
    x - n * t
  }

  lemma ScaledFraction(x: real, n: real, t: real)
    requires 0.0 < n && t == t.Floor as real
    requires 0.0 <= x ==> t <= x / n < t + 1.0
    requires x < 0.0 ==> t - 1.0 < x / n <= t
    ensures 0.0 <= x ==> 0.0 <= x - n * t < n
    ensures x < 0.0 ==> -n < x - n * t <= 0.0
    ensures (x - (x - n * t)) / n == t
  {
    var q := x / n;
    assert x == n * q;
    FractionOfDivisor(n, q - t, x - n * t);
    assert x - (x - n * t) == n * t;
  }

  /** A fraction `d` of the divisor, strictly between -1 and 1, stays strictly within one
      divisor of 0, on the side of its sign. */
  lemma FractionOfDivisor(n: real, d: real, r: real)
    requires 0.0 < n && -1.0 < d < 1.0 && r == n * d
    ensures 0.0 <= d ==> 0.0 <= r < n
    ensures d < 0.0 ==> -n < r < 0.0
  {
    if 0.0 <= d {
      MulPositive(n, 1.0 - d);
      assert n * (1.0 - d) == n - n * d;
      if d > 0.0 {
        MulPositive(n, d);
      }
    } else {
      MulPositive(n, 1.0 + d);
      assert n * (1.0 + d) == n + n * d;
      assert -n < r;
      MulPositive(n, -d);
      assert n * -d == -(n * d);
      assert r < 0.0;
    }
  }

  lemma MulPositive(a: real, b: real)
    requires 0.0 < a && 0.0 < b
    ensures 0.0 < a * b
  {
  }

  /** Math.min and Math.max on two or three numbers. */
  function MinReal(a: real, b: real): (m: real)
    ensures m <= a && m <= b && (m == a || m == b)
  {
    if a <= b then a else b
  }

  function MaxReal(a: real, b: real): (m: real)
    ensures a <= m && b <= m && (m == a || m == b)
  {
    if a >= b then a else b
  }

  function MinInt(a: int, b: int): (m: int)
    ensures m <= a && m <= b && (m == a || m == b)
  {
    if a <= b then a else b
  }

  function Max3(a: real, b: real, c: real): (m: real)
    ensures a <= m && b <= m && c <= m && (m == a || m == b || m == c)
  {
    MaxReal(MaxReal(a, b), c)
  }

  function Min3(a: real, b: real, c: real): (m: real)
    ensures m <= a && m <= b && m <= c && (m == a || m == b || m == c)
  {
    MinReal(MinReal(a, b), c)
  }
}
