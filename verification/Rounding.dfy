/** `round(x, 6)` and `round(x, 4)`: decimal rounding, halves to even. */
module Rounding {

  function RoundHalfEven(x: real): int {
    var f := x.Floor;
    var d := x - f as real;
    if d < 0.5 then f
    else if d > 0.5 then f + 1
    else if f % 2 == 0 then f else f + 1
  }

  /** n is the integer nearest to x; of two nearest ones, the even one. */
  predicate Nearest(n: int, x: real) {
    n as real - 0.5 <= x <= n as real + 0.5 && (x == n as real - 0.5 || x == n as real + 0.5 ==> n % 2 == 0)
  }

  lemma NearestExactly(x: real, n: int)
    ensures RoundHalfEven(x) == n <==> Nearest(n, x)
  {}

  function Round6(x: real): real {
    RoundHalfEven(x * 1000000.0) as real / 1000000.0
  }

  /** y is n in units of 1 / scale, and x rounds to it. */
  predicate Rounds(n: int, x: real, y: real, scale: real) {
    y * scale == n as real && Nearest(n, x * scale)
  }

  /** y has at most six decimals and x rounds to it. */
  ghost predicate SixDecimals(y: real, x: real) {
    exists n :: Rounds(n, x, y, 1000000.0)
  }

  /** The rounded value is the nearest one with at most six decimals. */
  lemma Round6Exactly(x: real, y: real)
    ensures y == Round6(x) <==> SixDecimals(y, x)
  {
    NearestExactly(x * 1000000.0, RoundHalfEven(x * 1000000.0));
    if y == Round6(x) {
      assert Rounds(RoundHalfEven(x * 1000000.0), x, y, 1000000.0);
    }
    if n :| Rounds(n, x, y, 1000000.0) {
      NearestExactly(x * 1000000.0, n);
    }
    hide RoundHalfEven;
    hide Nearest;
  }

  const HALF_UNIT := 0.0000005

  lemma RoundHalfEvenNear(x: real)
    ensures x - 0.5 <= RoundHalfEven(x) as real <= x + 0.5
  {}

  lemma RoundHalfEvenMonotone(x: real, y: real)
    requires x <= y
    ensures RoundHalfEven(x) <= RoundHalfEven(y)
  {
    assert x.Floor <= y.Floor;
  }

  lemma Round6Near(x: real)
    ensures x - HALF_UNIT <= Round6(x) <= x + HALF_UNIT
  {
    RoundHalfEvenNear(x * 1000000.0);
  }

  lemma Round6Monotone(x: real, y: real)
    requires x <= y
    ensures Round6(x) <= Round6(y)
  {
    RoundHalfEvenMonotone(x * 1000000.0, y * 1000000.0);
  }

  // ---------- percentages ----------

  function Round4(x: real): real {
    RoundHalfEven(x * 10000.0) as real / 10000.0
  }

  lemma Round4Exactly(x: real, y: real)
    ensures y == Round4(x) <==> exists n :: Rounds(n, x, y, 10000.0)
  {
    NearestExactly(x * 10000.0, RoundHalfEven(x * 10000.0));
    if y == Round4(x) {
      assert Rounds(RoundHalfEven(x * 10000.0), x, y, 10000.0);
    }
    if n :| Rounds(n, x, y, 10000.0) {
      NearestExactly(x * 10000.0, n);
    }
    hide RoundHalfEven;
    hide Nearest;
  }

  /** Unrounded; 0 of nothing. */
  function Percent(part: int, whole: int): real {
    if whole > 0 then part as real * 100.0 / whole as real else 0.0
  }

  lemma PercentExactly(part: int, whole: int)
    ensures whole > 0 ==> Percent(part, whole) * whole as real == 100.0 * part as real
    ensures whole <= 0 ==> Percent(part, whole) == 0.0
  {}

  lemma QuotientAtMost(n: real, d: real, bound: real)
    requires 0.0 <= n <= bound * d && d > 0.0
    ensures 0.0 <= n / d <= bound
  {}

  lemma PercentInRange(part: int, whole: int)
    requires 0 <= part <= whole
    ensures 0.0 <= Percent(part, whole) <= 100.0
  {
    if whole > 0 {
      QuotientAtMost(part as real * 100.0, whole as real, 100.0);
    }
  }

  /** A rounded percentage is within 0 and 100, and within half a unit of the exact one. */
  lemma RoundedPercent(part: int, whole: int)
    requires 0 <= part <= whole
    ensures 0.0 <= Round4(Percent(part, whole)) <= 100.0 && 0.0 <= Round6(Percent(part, whole)) <= 100.0
    ensures Percent(part, whole) - 0.00005 <= Round4(Percent(part, whole)) <= Percent(part, whole) + 0.00005
  {
    PercentInRange(part, whole);
    var x := Percent(part, whole);
    hide Percent;
    RoundHalfEvenNear(x * 10000.0);
    RoundHalfEvenMonotone(0.0, x * 10000.0);
    RoundHalfEvenMonotone(x * 10000.0, 1000000.0);
    RoundHalfEvenMonotone(0.0, x * 1000000.0);
    RoundHalfEvenMonotone(x * 1000000.0, 100000000.0);
    assert RoundHalfEven(0.0) == 0 && RoundHalfEven(1000000.0) == 1000000 && RoundHalfEven(100000000.0) == 100000000;
    hide RoundHalfEven;
  }
}
