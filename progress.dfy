/** The progress bar: the share of completed tasks as a whole percentage,
    computed exactly on integers. */
module Progress {
  import opened Wrappers

  /** `Math.round(current / total * 100)`, or nothing when `total === 0`.
      `Math.round(x)` is `floor(x + 1/2)`, so the result is the integer
      `r` with `r - 1/2 <= 100 * current / total < r + 1/2`. */
  function Percentage(current: int, total: nat): (r: Option<int>)
    ensures r.None? <==> total == 0
    ensures r.Some? ==> 2 * total * r.value <= 200 * current + total < 2 * total * (r.value + 1)
  {
    if total == 0 then None
    else
      var d := 2 * total;
      var n := 200 * current + total;
      var q := n / d;
      assert d * q <= n < d * (q + 1) by {
        assert n == d * q + n % d;
      }
      Some(q)
  }

  lemma MulMonotonic(k: int, a: int, b: int)
    requires k > 0 && a <= b
    ensures k * a <= k * b
  {
  }

  /** For a count within the total the percentage lies in 0..100, is 0 for
      no completed task and 100 when all are completed. */
  lemma PercentageBounds(current: int, total: nat)
    requires total > 0 && 0 <= current <= total
    ensures 0 <= Percentage(current, total).value <= 100
    ensures current == 0 ==> Percentage(current, total).value == 0
    ensures current == total ==> Percentage(current, total).value == 100
  {
    var r := Percentage(current, total).value;
    var d := 2 * total;
    if r < 0 {
      MulMonotonic(d, r + 1, 0);
    } else if r > 100 {
      MulMonotonic(d, 101, r);
    } else if current == 0 && r != 0 {
      MulMonotonic(d, 1, r);
    } else if current == total && r != 100 {
      MulMonotonic(d, r + 1, 100);
    }
  }

  /** More completed tasks never show a smaller percentage. */
  lemma PercentageMonotonic(c1: int, c2: int, total: nat)
    requires total > 0 && c1 <= c2
    ensures Percentage(c1, total).value <= Percentage(c2, total).value
  {
    var r1, r2 := Percentage(c1, total).value, Percentage(c2, total).value;
    if r1 > r2 {
      MulMonotonic(2 * total, r2 + 1, r1);
    }
  }
}
