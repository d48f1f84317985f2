/**
 * The progress value the background task posts at the start of outer
 * iteration i of a run over n elements: `i * range / (n - 2)`, where range is
 * the progress gauge's range, 1000.
 */
module Gauge {
  import opened Wrappers

  /** The range the progress gauge is created with. */
  const GaugeRange: int := 1000

  /**
   * The value exactly as the posted action computes it, for an outer iteration
   * the loop reaches (0 <= i < n - 1). None stands for the integer division by
   * zero that happens when n == 2. Otherwise the operands are non-negative,
   * where C++ division and Dafny division agree.
   */
  function ProgressAsWritten(i: nat, n: int): (r: Option<int>)
    requires i < n - 1
    ensures r.None? <==> n == 2
    ensures r.Some? ==> 0 <= r.value <= GaugeRange
  {
    if n - 2 == 0 then None
    else
      DivBelow(i * GaugeRange, n - 2, GaugeRange);
      Some(i * GaugeRange / (n - 2))
  }

  /**
   * The progress value with the two-element case mended: the only iteration
   * of a two-element run is also its last, so it reports the full range.
   * Everywhere else it is the value the posted action computes.
   */
  function ProgressValue(i: nat, n: int): (v: int)
    requires i < n - 1
    ensures 0 <= v <= GaugeRange
    ensures i == n - 2 ==> v == GaugeRange
    ensures i == 0 && n != 2 ==> v == 0
    ensures n != 2 ==> ProgressAsWritten(i, n) == Some(v)
  {
    if n == 2 then GaugeRange
    else
      DivBelow(i * GaugeRange, n - 2, GaugeRange);
      i * GaugeRange / (n - 2)
  }

  /** a / d, for 0 <= a <= d * bound, is at most bound. */
  lemma DivBelow(a: nat, d: int, bound: nat)
    requires d > 0 && a <= bound * d
    ensures a / d <= bound
  {
    if a / d > bound {
      assert d * (a / d) >= d * (bound + 1) by {
        MulMonotone(d, bound + 1, a / d);
      }
    }
  }

  lemma MulMonotone(d: nat, x: int, y: int)
    requires x <= y
    ensures d * x <= d * y
  {
  }

  /** Integer division by a positive divisor is monotone in the dividend. */
  lemma DivMonotone(a: int, b: int, d: int)
    requires 0 <= a <= b && d > 0
    ensures a / d <= b / d
  {
    if a / d > b / d {
      assert d * (a / d) >= d * (b / d + 1) by {
        MulMonotone(d, b / d + 1, a / d);
      }
    }
  }

  /** The posted progress values never decrease from one outer iteration to the next. */
  lemma ProgressMonotone(i: nat, j: nat, n: int)
    requires i <= j < n - 1
    ensures ProgressValue(i, n) <= ProgressValue(j, n)
  {
    if n != 2 {
      MulMonotone(GaugeRange, i, j);
      DivMonotone(i * GaugeRange, j * GaugeRange, n - 2);
    }
  }

  /** As written, a run over two elements divides by zero at its only outer iteration. */
  lemma TwoElementRunDividesByZero()
    ensures ProgressAsWritten(0, 2) == None
    ensures ProgressValue(0, 2) == GaugeRange
  {
  }
}
