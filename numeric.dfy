/**
 * The arithmetic the metrics use, on exact numbers: JavaScript's
 * `Math.ceil(x / y)` and `Math.round(x / y)` for a positive divisor, and the
 * guarded ratios (averages and percentages) that report 0 for an empty
 * whole.  Ratios are `real`, so they carry no floating-point rounding.
 */
module Numeric {

  /** `Math.ceil(x / y)`: the least integer not below `x / y`. */
  function CeilDiv(x: int, y: int): (r: int)
    requires y > 0
    ensures y * (r - 1) < x <= y * r
  {
    -((-x) / y)
  }

  /** `Math.round(x / y)`: the integer nearest `x / y`, halves rounding up. */
  function RoundDiv(x: int, y: int): (r: int)
    requires y > 0
    ensures 2 * y * r - y <= 2 * x < 2 * y * r + y
  {
    (2 * x + y) / (2 * y)
  }

  lemma MulAtLeast(d: int, b: int)
    requires b > 0
    ensures d >= 1 ==> d * b >= b
    ensures d <= -1 ==> d * b <= -b
  {
    if d >= 1 {
      assert d * b == (d - 1) * b + b;
    } else if d <= -1 {
      assert d * b == (d + 1) * b - b;
    }
  }

  /** Euclidean division is determined by quotient and remainder. */
  lemma DivUnique(a: int, b: int, q: int, r: int)
    requires b > 0 && 0 <= r < b && a == q * b + r
    ensures a / b == q
  {
    var q' := a / b;
    assert (q - q') * b == a % b - r;
    MulAtLeast(q - q', b);
  }

  /** `Math.round` of an exact quotient is that quotient. */
  lemma RoundDivExact(q: int, y: int)
    requires y > 0
    ensures RoundDiv(q * y, y) == q
  {
    assert 2 * (q * y) + y == q * (2 * y) + y;
    DivUnique(2 * (q * y) + y, 2 * y, q, y);
  }

  /** `whole > 0 ? total / whole : 0`: an average that is 0 over nothing. */
  function Ratio(total: int, whole: int): (r: real)
    ensures whole <= 0 ==> r == 0.0
    ensures whole > 0 ==> r * whole as real == total as real
  {
    if whole > 0 then total as real / whole as real else 0.0
  }

  /** `whole > 0 ? (part / whole) * 100 : 0`. */
  function Percent(part: int, whole: int): (r: real)
    ensures whole <= 0 ==> r == 0.0
    ensures whole > 0 ==> r * whole as real == 100.0 * part as real
  {
    Ratio(part, whole) * 100.0
  }

  /** A share of a whole it does not exceed is a percentage between 0 and 100. */
  lemma PercentBounds(part: int, whole: int)
    requires 0 <= part <= whole
    ensures 0.0 <= Percent(part, whole) <= 100.0
  {
    if whole > 0 {
      var r := Percent(part, whole);
      assert r * whole as real <= 100.0 * whole as real;
    }
  }

  /** Totals between `n * lo` and `n * hi` average between `lo` and `hi`. */
  lemma RatioBounds(total: int, n: int, lo: int, hi: int)
    requires n > 0 && n * lo <= total <= n * hi
    ensures lo as real <= Ratio(total, n) <= hi as real
  {
    var r := Ratio(total, n);
    assert r * n as real == total as real;
    assert (n * lo) as real == n as real * lo as real;
    assert (n * hi) as real == n as real * hi as real;
  }
}
