/** The completion percentage both the dashboard and the task page display. */
module Percent {

  /**
   * `whole > 0 ? Math.round((part / whole) * 100) : 0`, computed exactly:
   * the integer nearest to `100 * part / whole`, halves rounded up.
   */
  function RoundedPercent(part: nat, whole: nat): (r: int)
    ensures whole == 0 ==> r == 0
    ensures whole > 0 ==> 2 * r * whole <= 200 * part + whole < 2 * r * whole + 2 * whole
    ensures part <= whole ==> 0 <= r <= 100
    ensures part == 0 ==> r == 0
    ensures 0 < whole && part == whole ==> r == 100
  {
    if whole == 0 then 0
    else
      var r := (200 * part + whole) / (2 * whole);
      RoundedPercentBounds(part, whole, r);
      r
  }

  lemma RoundedPercentBounds(part: nat, whole: nat, r: int)
    requires whole > 0 && r == (200 * part + whole) / (2 * whole)
    ensures 2 * r * whole <= 200 * part + whole < 2 * r * whole + 2 * whole
    ensures r >= 0
    ensures part <= whole ==> r <= 100
    ensures part == 0 ==> r == 0
    ensures part == whole ==> r == 100
  {
    var n := 200 * part + whole;
    var d := 2 * whole;
    DivBracket(n, d);
    assert 2 * r * whole == r * d;
    DivLower(n, d, 0);
    if part <= whole {
      DivUpper(n, d, 101);
    }
    if part == 0 {
      DivUpper(n, d, 1);
    }
    if part == whole {
      DivLower(n, d, 100);
    }
  }

  lemma DivBracket(n: nat, d: nat)
    requires d > 0
    ensures (n / d) * d <= n < (n / d) * d + d
  {
    assert n == (n / d) * d + n % d;
  }

  lemma MulMonotone(x: int, y: int, d: nat)
    requires x <= y
    ensures x * d <= y * d
  {
    assert y * d - x * d == (y - x) * d;
  }

  /** A multiple of `d` at most `n` bounds the quotient from below. */
  lemma DivLower(n: nat, d: nat, k: nat)
    requires d > 0 && k * d <= n
    ensures k <= n / d
  {
    DivBracket(n, d);
    if n / d < k {
      MulMonotone(n / d + 1, k, d);
    }
  }

  /** A multiple of `d` above `n` bounds the quotient from above. */
  lemma DivUpper(n: nat, d: nat, k: nat)
    requires d > 0 && n < k * d
    ensures n / d < k
  {
    DivBracket(n, d);
    if n / d >= k {
      MulMonotone(k, n / d, d);
    }
  }
}
