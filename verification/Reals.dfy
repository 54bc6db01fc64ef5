/** Real remainders and rounding. */
module Reals {

  function Floor(x: real): int {
    x.Floor
  }

  function Times(a: real, b: real): real {
    a * b
  }

  lemma TimesFacts(a: real, b: real, c: real)
    ensures Times(a - b, c) == Times(a, c) - Times(b, c)
    ensures Times(0.0, c) == 0.0 && Times(1.0, c) == c && Times(-1.0, c) == -c
  {
  }

  lemma Scales(a: real, b: real, c: real)
    requires 0.0 < c
    ensures a < b ==> Times(a, c) < Times(b, c)
    ensures a <= b ==> Times(a, c) <= Times(b, c)
  {
    if a < b { assert (b - a) * c > 0.0; }
  }

  lemma Quotient(x: real, c: real)
    requires 0.0 < c
    ensures Times(x / c, c) == x
  {
  }

  /** The remainder with the sign of the divisor, for a positive divisor. */
  function Mod(x: real, c: real): real
    requires 0.0 < c
  {
    x - Times(Floor(x / c) as real, c)
  }

  lemma ModInRange(x: real, c: real)
    requires 0.0 < c
    ensures 0.0 <= Mod(x, c) < c
  {
    hide Times;
    var q, n := x / c, Floor(x / c) as real;
    Quotient(x, c);
    TimesFacts(q, n, c);
    Scales(0.0, q - n, c);
    Scales(q - n, 1.0, c);
  }

  /** The remainder is the only number in range that is a whole number of cycles away. */
  lemma ModUnique(x: real, c: real, n: int, r: real)
    requires 0.0 < c && 0.0 <= r < c && x == Times(n as real, c) + r
    ensures Mod(x, c) == r
  {
    hide Times;
    var m := Floor(x / c);
    ModInRange(x, c);
    var d := (n as real) - (m as real);
    assert d == (n - m) as real;
    TimesFacts(n as real, m as real, c);
    assert Times(d, c) == Mod(x, c) - r;
    assert n > m ==> d >= 1.0;
    assert n < m ==> d <= -1.0;
    Scales(1.0, d, c);
    Scales(d, -1.0, c);
    assert n == m;
  }

  /** The nearest integer, ties to the even neighbour. */
  function Nearest(y: real): int {
    var n := Floor(y);
    var f := y - (n as real);
    if f < 0.5 || (f == 0.5 && n % 2 == 0) then n else n + 1
  }

  /** Rounding to two decimals. */
  function Round2(x: real): real {
    (Nearest(x * 100.0) as real) / 100.0
  }

  /** Rounding to one decimal. */
  function Round1(x: real): real {
    (Nearest(x * 10.0) as real) / 10.0
  }

  lemma RoundError(x: real)
    ensures -0.005 <= Round2(x) - x <= 0.005
    ensures -0.05 <= Round1(x) - x <= 0.05
  {
  }

  /** The nearest integer is no further away than any other, and the even one of two that are equally near. */
  lemma NearestExactly(y: real, k: int)
    ensures var n := Nearest(y) as real;
            -0.5 <= n - y <= 0.5 && (n - y == 0.5 || n - y == -0.5 ==> Nearest(y) % 2 == 0)
    ensures -0.5 < k as real - y < 0.5 ==> Nearest(y) == k
  {
    var m := y.Floor;
    assert m as real <= y < m as real + 1.0;
    assert k <= m ==> k as real <= m as real;
    assert k >= m + 1 ==> k as real >= (m + 1) as real;
    assert (m + 1) as real == m as real + 1.0;
  }
}
