/**
 * hw05/tadd.c: two threads add 1..50 into the global `sum1` and 51..100
 * into the global `sum2`; main joins both and prints their total. The two
 * globals are the fields of one object; the threads touch disjoint fields,
 * so running them one after the other, in either order, gives the same
 * result as any interleaving.
 */
module Tadd {
  /** lo + (lo + 1) + ... + hi, and 0 when the range is empty. */
  function SumRange(lo: int, hi: int): int
    decreases hi - lo
  {
    if hi < lo then 0 else SumRange(lo, hi - 1) + hi
  }

  /** Gauss's closed form for a non-empty range. */
  lemma {:induction false} SumRangeClosedForm(lo: int, hi: int)
    requires lo <= hi + 1
    ensures 2 * SumRange(lo, hi) == (hi - lo + 1) * (lo + hi)
    decreases hi - lo
  {
    if hi >= lo {
      SumRangeClosedForm(lo, hi - 1);
    }
  }

  /** Two adjacent ranges add up to the range they cover. */
  lemma {:induction false} SumRangeSplit(lo: int, mid: int, hi: int)
    requires lo <= mid + 1 && mid <= hi
    ensures SumRange(lo, mid) + SumRange(mid + 1, hi) == SumRange(lo, hi)
    decreases hi - mid
  {
    if hi > mid {
      SumRangeSplit(lo, mid, hi - 1);
    }
  }

  /** The globals `sum1` and `sum2`, both 0 at start-up. */
  class Sums {
    var sum1: int
    var sum2: int

    constructor ()
      ensures sum1 == 0 && sum2 == 0
    {
      sum1, sum2 := 0, 0;
    }

    /** sum_first_half: add 1..50 to sum1; sum2 is not touched. */
    method SumFirstHalf()
      modifies this
      ensures sum1 == old(sum1) + SumRange(1, 50)
      ensures sum2 == old(sum2)
    {
      for i := 1 to 51
        invariant sum1 == old(sum1) + SumRange(1, i - 1) && sum2 == old(sum2)
      {
        sum1 := sum1 + i;
      }
    }

    /** sum_second_half: add 51..100 to sum2; sum1 is not touched. */
    method SumSecondHalf()
      modifies this
      ensures sum2 == old(sum2) + SumRange(51, 100)
      ensures sum1 == old(sum1)
    {
      for i := 51 to 101
        invariant sum2 == old(sum2) + SumRange(51, i - 1) && sum1 == old(sum1)
      {
        sum2 := sum2 + i;
      }
    }
  }

  /**
   * main: both threads run to completion (in either order) before the
   * total is printed. sum1 is 1275, sum2 is 3775 and the total is 5050,
   * the sum of 1..100.
   */
  method RunThreads(firstThreadFirst: bool) returns (sum1: int, sum2: int, total: int)
    ensures sum1 == 1275 && sum2 == 3775
    ensures total == 5050 && total == SumRange(1, 100)
  {
    var s := new Sums();
    if firstThreadFirst {
      s.SumFirstHalf();
      s.SumSecondHalf();
    } else {
      s.SumSecondHalf();
      s.SumFirstHalf();
    }
    SumRangeClosedForm(1, 50);
    SumRangeClosedForm(51, 100);
    SumRangeSplit(1, 50, 100);
    sum1, sum2 := s.sum1, s.sum2;
    total := sum1 + sum2;
  }
}
