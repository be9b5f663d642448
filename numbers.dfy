/** The numeric conversions the analytics apply to their results:
    `round(x, 2)`, `int(x)` and the percentage change between two prices.
    Values are exact reals, so nothing here depends on floating point. */
module Numbers {

  /** `y` lies within half a unit of the integer `n`, and a tie goes to the even one. */
  predicate NearestEven(y: real, n: int) {
    && -0.5 <= n as real - y <= 0.5
    && ((n as real - y == 0.5 || y - n as real == 0.5) ==> n % 2 == 0)
  }

  /** Rounding to the nearest integer, ties to even, as Python's `round` does. */
  function RoundHalfEven(y: real): (n: int)
    ensures NearestEven(y, n)
  {
    var f := y.Floor;
    var frac := y - f as real;
    if frac < 0.5 then f
    else if frac > 0.5 then f + 1
    else if f % 2 == 0 then f
    else f + 1
  }

  /** Only one integer is the nearest-even rounding of a value. */
  lemma NearestEvenUnique(y: real, n: int, m: int)
    requires NearestEven(y, n) && NearestEven(y, m)
    ensures n == m
  {
  }

  /** `x` is a whole number of hundredths. */
  predicate IsCents(x: real) {
    (x * 100.0).Floor as real == x * 100.0
  }

  /** `round(x, 2)`: the nearest multiple of 0.01, ties to the even multiple. */
  function Round2(x: real): (r: real)
    ensures -0.005 <= r - x <= 0.005
    ensures x >= 0.0 ==> r >= 0.0
    ensures x <= 0.0 ==> r <= 0.0
  {
    RoundHalfEven(x * 100.0) as real / 100.0
  }

  /** The result of `round(x, 2)` is a whole number of hundredths. */
  lemma Round2InCents(x: real)
    ensures IsCents(Round2(x))
  {
    var n := RoundHalfEven(x * 100.0);
    assert Round2(x) * 100.0 == n as real;
    assert (n as real).Floor == n;
  }

  /** A value already in hundredths is left alone by `round(x, 2)`,
      so rounding twice is rounding once. */
  lemma Round2Idempotent(x: real)
    ensures IsCents(x) ==> Round2(x) == x
    ensures Round2(Round2(x)) == Round2(x)
  {
    Round2InCents(x);
    forall y | IsCents(y) ensures Round2(y) == y {
      var k := (y * 100.0).Floor;
      assert NearestEven(y * 100.0, k);
      NearestEvenUnique(y * 100.0, k, RoundHalfEven(y * 100.0));
    }
  }

  /** `n` is `x` with its fractional part dropped (truncation toward zero). */
  predicate TruncatesTo(x: real, n: int) {
    if x >= 0.0 then n as real <= x < n as real + 1.0
    else n as real - 1.0 < x <= n as real
  }

  /** `int(x)` on a float: truncation toward zero. */
  function Trunc(x: real): (n: int)
    ensures TruncatesTo(x, n)
    ensures x >= 0.0 ==> n >= 0
    ensures x <= 0.0 ==> n <= 0
  {
    if x >= 0.0 then x.Floor else -((-x).Floor)
  }

  /** `((cur - prev) / prev) * 100`: the percentage by which `cur` exceeds `prev`. */
  function Change(cur: real, prev: real): (r: real)
    requires prev != 0.0
    ensures cur == prev + prev * r / 100.0
    ensures prev > 0.0 ==> (r > 0.0 <==> cur > prev) && (r == 0.0 <==> cur == prev)
  {
    ((cur - prev) / prev) * 100.0
  }
}
