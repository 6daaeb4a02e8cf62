/**
 * Python's built-in `round(number, ndigits)` as the converter uses it:
 * `round(x, 2)` for the converted amount and `round(x, 4)` for the displayed
 * exchange rate. The model rounds an exact real number to the nearest multiple
 * of 10^-ndigits, a tie going to the even neighbour, as `round` does.
 *
 * The rounding functions carry no postconditions of their own: their
 * properties are lemmas, called where they are needed, which keeps bounds on
 * products of amounts and rates out of every proof that does not ask for them.
 */
module Rounding {
  import opened RealBounds

  /** True when y is a whole number. */
  predicate IsInteger(y: real) {
    y.Floor as real == y
  }

  /** The integer nearest to x; a tie goes to the even one. */
  function RoundHalfEven(x: real): int {
    var f := x.Floor;
    var frac := x - f as real;
    if frac < 0.5 then f
    else if frac > 0.5 then f + 1
    else if f % 2 == 0 then f
    else f + 1
  }

  /** RoundHalfEven(x) is at most 1/2 away from x, and even when exactly 1/2 away. */
  lemma RoundHalfEvenBound(x: real)
    ensures Abs(RoundHalfEven(x) as real - x) <= 0.5
    ensures Abs(RoundHalfEven(x) as real - x) == 0.5 ==> RoundHalfEven(x) % 2 == 0
  {
  }

  /** No integer is nearer to x than RoundHalfEven(x), and an equally near one is odd. */
  lemma RoundHalfEvenNearest(x: real, m: int)
    ensures Abs(RoundHalfEven(x) as real - x) <= Abs(m as real - x)
    ensures m != RoundHalfEven(x) && Abs(m as real - x) == Abs(RoundHalfEven(x) as real - x)
            ==> m % 2 != 0
  {
    RoundHalfEvenBound(x);
    var n := RoundHalfEven(x);
    if m < n {
      assert m as real <= n as real - 1.0;
    } else if m > n {
      assert m as real >= n as real + 1.0;
    }
  }

  /** A whole number is its own nearest integer. */
  lemma RoundHalfEvenInteger(x: real)
    requires IsInteger(x)
    ensures RoundHalfEven(x) as real == x
  {
    RoundHalfEvenNearest(x, x.Floor);
  }

  lemma RoundHalfEvenMonotone(x: real, y: real)
    requires x <= y
    ensures RoundHalfEven(x) <= RoundHalfEven(y)
  {
    RoundHalfEvenBound(x);
    RoundHalfEvenBound(y);
    if RoundHalfEven(x) > RoundHalfEven(y) {
      // the two differ by at most 1 + (x - y) <= 1, so they are consecutive
      // integers, both exact ties, and both even: impossible
      assert false;
    }
  }

  /** `round(x, ndigits)` with scale = 10^ndigits: x to the nearest multiple of 1/scale. */
  function RoundTo(x: real, scale: real): real
    requires scale > 0.0
  {
    RoundHalfEven(x * scale) as real / scale
  }

  /** `round(x, 2)`: x to the nearest cent, ties to even. */
  function Round2(x: real): real {
    RoundTo(x, 100.0)
  }

  /** `round(x, 4)`: x to the nearest 0.0001, ties to even. */
  function Round4(x: real): real {
    RoundTo(x, 10000.0)
  }

  /** Dividing a whole number n within 1/2 of x * scale by scale lands within 1/(2 scale) of x. */
  lemma UnscaleNearest(x: real, scale: real, n: int)
    requires scale > 0.0
    requires Abs(n as real - x * scale) <= 0.5
    ensures Abs(n as real / scale - x) <= 0.5 / scale
    ensures x >= 0.0 ==> n >= 0
  {
    var y := x * scale;
    var r := n as real / scale;
    assert r - x == (n as real - y) / scale;
    DivideMonotone(Abs(n as real - y), 0.5, scale);
    if x >= 0.0 {
      MultiplyNonnegative(x, scale);
    }
  }

  /**
   * `round(x, ndigits)` is within half a unit of the last kept digit of x,
   * has at most ndigits decimals, and keeps a nonnegative value nonnegative.
   */
  lemma RoundToBounds(x: real, scale: real)
    requires scale > 0.0
    ensures Abs(RoundTo(x, scale) - x) <= 0.5 / scale
    ensures IsInteger(RoundTo(x, scale) * scale)
    ensures x >= 0.0 ==> RoundTo(x, scale) >= 0.0
  {
    var n := RoundHalfEven(x * scale);
    RoundHalfEvenBound(x * scale);
    UnscaleNearest(x, scale, n);
    QuotientCancels(n as real, scale);
    assert RoundTo(x, scale) * scale == n as real;
    assert (n as real).Floor == n;
  }

  /** A value that already has at most ndigits decimals is left unchanged. */
  lemma RoundToOnGrid(x: real, scale: real)
    requires scale > 0.0
    requires IsInteger(x * scale)
    ensures RoundTo(x, scale) == x
  {
    RoundHalfEvenInteger(x * scale);
  }

  /** `round(x, 2)` is within half a cent of x and a whole number of cents. */
  lemma Round2Bounds(x: real)
    ensures Abs(Round2(x) - x) <= 0.005
    ensures IsInteger(Round2(x) * 100.0)
    ensures x >= 0.0 ==> Round2(x) >= 0.0
  {
    RoundToBounds(x, 100.0);
  }

  /** `round(x, 4)` is within 0.00005 of x and has at most four decimals. */
  lemma Round4Bounds(x: real)
    ensures Abs(Round4(x) - x) <= 0.00005
    ensures IsInteger(Round4(x) * 10000.0)
    ensures x >= 0.0 ==> Round4(x) >= 0.0
  {
    RoundToBounds(x, 10000.0);
  }

  /** An amount already in whole cents is left unchanged by `round(x, 2)`. */
  lemma Round2OnGrid(x: real)
    requires IsInteger(x * 100.0)
    ensures Round2(x) == x
  {
    RoundToOnGrid(x, 100.0);
  }

  /** `round(x, 2)` never reverses the order of two amounts. */
  lemma Round2Monotone(x: real, y: real)
    requires x <= y
    ensures Round2(x) <= Round2(y)
  {
    RoundHalfEvenMonotone(x * 100.0, y * 100.0);
  }

  /** Rounding a rounded amount again changes nothing. */
  lemma Round2Idempotent(x: real)
    ensures Round2(Round2(x)) == Round2(x)
  {
    Round2Bounds(x);
    Round2OnGrid(Round2(x));
  }
}
