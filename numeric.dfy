/** Python's numeric conversions on exact reals: `int(x)` on a float, and the
    float operators `//` and `%`. IEEE rounding is not modelled. */
module Numeric {

  /** `int(x)`: truncation toward zero. */
  function Trunc(x: real): (r: int)
    ensures 0.0 <= x ==> 0 <= r && r as real <= x < r as real + 1.0
    ensures x < 0.0 ==> r <= 0 && r as real - 1.0 < x <= r as real
  {
    if x >= 0.0 then x.Floor else -((-x).Floor)
  }

  /** `x // y` on floats: the floor of the exact quotient. */
  function FloorDiv(x: real, y: real): real
    requires y != 0.0
  {
    (x / y).Floor as real
  }

  /** `x % y` on floats: `x - y * (x // y)`, which has the sign of `y`. */
  function Mod(x: real, y: real): real
    requires y != 0.0
  {
    x - y * FloorDiv(x, y)
  }

  /** The exact quotient of two integers, with a positive divisor, has the
      integer (floor) quotient as its floor. */
  lemma FloorOfQuotient(n: int, d: int)
    requires d > 0
    ensures (n as real / d as real).Floor == n / d
  {
    var q, r := n / d, n % d;
    assert n == q * d + r;
    assert n as real == q as real * d as real + r as real;
    QuotientBetween(n as real, d as real, q as real, r as real);
  }

  /** If `n == q * d + r` with `0 <= r < d`, the quotient `n / d` lies in `[q, q + 1)`. */
  lemma QuotientBetween(n: real, d: real, q: real, r: real)
    requires 0.0 < d && 0.0 <= r < d && n == q * d + r
    ensures q <= n / d < q + 1.0
  {
    var y := n / d - q;
    assert y * d == r;
    ScalePositive(y, d);
  }

  /** Multiplying by a positive factor keeps the order with 0 and with 1. */
  lemma ScalePositive(a: real, b: real)
    requires 0.0 < b
    ensures a < 0.0 ==> a * b < 0.0
    ensures 1.0 <= a ==> b <= a * b
  {
  }

  /** `t // 60` and `t % 60`, truncated, for `t` the exact quotient `n / d`:
      the integer quotient `n / d` split into whole sixties and a remainder. */
  lemma MinutesAndSeconds(n: int, d: int)
    requires d > 0
    ensures Trunc(FloorDiv(n as real / d as real, 60.0)) == (n / d) / 60
    ensures Trunc(Mod(n as real / d as real, 60.0)) == (n / d) % 60
  {
    var t := n as real / d as real;
    var q := n / d;
    FloorOfQuotient(n, d);
    assert q as real <= t < q as real + 1.0;
    var m, s := q / 60, q % 60;
    assert q == 60 * m + s && 0 <= s < 60;
    assert m as real <= t / 60.0 < m as real + 1.0;
    assert (t / 60.0).Floor == m;
    assert FloorDiv(t, 60.0) == m as real;
    assert s as real <= Mod(t, 60.0) < s as real + 1.0;
  }
}
