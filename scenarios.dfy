/**
  Worked examples with capacity 10: the remaining capacities of the open bins
  after a heuristic has placed a short list of items. Each example is built
  one item at a time with `Step`.
 */
module Scenarios {
  import opened Bins
  import opened Ordering

  /** One more item, with the chosen bin `k` given explicitly. */
  lemma Step(rule: Rule, ws: seq<int>, w: int, c: int, before: seq<int>, k: nat, after: seq<int>)
    requires Pack(rule, ws, c) == before
    requires Slot(rule, before, w, c) == k <= |before|
    requires Place(before, k, w, c) == after
    ensures Pack(rule, ws + [w], c) == after
  {
    PackSnoc(rule, ws, w, c);
  }

  /** Best-Fit opens a new bin when no bin has room. */
  lemma BestSlotNone(bins: seq<int>, w: int, c: int)
    requires forall j :: 0 <= j < |bins| ==> bins[j] < w
    ensures BestSlot(bins, w, c) == |bins|
  {
  }

  /** First-Fit state after the first 2 items of `FirstFitTwoFullBins`. */
  lemma FirstFitTwoFullBinsUpto2()
    ensures Pack(First, [4, 8], 10) == [6, 2]
  {
    FirstSlotIs([6], 8, 1);
    Step(First, [4], 8, 10, [6], 1, [6, 2]);
    assert [4] + [8] == [4, 8];
  }

  /** First-Fit state after the first 3 items of `FirstFitTwoFullBins`. */
  lemma FirstFitTwoFullBinsUpto3()
    ensures Pack(First, [4, 8, 1], 10) == [5, 2]
  {
    FirstFitTwoFullBinsUpto2();
    FirstSlotIs([6, 2], 1, 0);
    Step(First, [4, 8], 1, 10, [6, 2], 0, [5, 2]);
    assert [4, 8] + [1] == [4, 8, 1];
  }

  /** First-Fit state after the first 4 items of `FirstFitTwoFullBins`. */
  lemma FirstFitTwoFullBinsUpto4()
    ensures Pack(First, [4, 8, 1, 4], 10) == [1, 2]
  {
    FirstFitTwoFullBinsUpto3();
    FirstSlotIs([5, 2], 4, 0);
    Step(First, [4, 8, 1], 4, 10, [5, 2], 0, [1, 2]);
    assert [4, 8, 1] + [4] == [4, 8, 1, 4];
  }

  /** First-Fit state after the first 5 items of `FirstFitTwoFullBins`. */
  lemma FirstFitTwoFullBinsUpto5()
    ensures Pack(First, [4, 8, 1, 4, 2], 10) == [1, 0]
  {
    FirstFitTwoFullBinsUpto4();
    FirstSlotIs([1, 2], 2, 1);
    Step(First, [4, 8, 1, 4], 2, 10, [1, 2], 1, [1, 0]);
    assert [4, 8, 1, 4] + [2] == [4, 8, 1, 4, 2];
  }

  /** Items 4, 8, 1, 4, 2, 1: First-Fit fills two bins exactly. */
  lemma FirstFitTwoFullBins()
    ensures Pack(First, [4, 8, 1, 4, 2, 1], 10) == [0, 0]
  {
    FirstFitTwoFullBinsUpto5();
    FirstSlotIs([1, 0], 1, 0);
    Step(First, [4, 8, 1, 4, 2], 1, 10, [1, 0], 0, [0, 0]);
    assert [4, 8, 1, 4, 2] + [1] == [4, 8, 1, 4, 2, 1];
  }

  /** Best-Fit state after the first 2 items of `BestFitTwoFullBins`. */
  lemma BestFitTwoFullBinsUpto2()
    ensures Pack(Best, [4, 8], 10) == [6, 2]
  {
    BestSlotNone([6], 8, 10);
    Step(Best, [4], 8, 10, [6], 1, [6, 2]);
    assert [4] + [8] == [4, 8];
  }

  /** Best-Fit state after the first 3 items of `BestFitTwoFullBins`. */
  lemma BestFitTwoFullBinsUpto3()
    ensures Pack(Best, [4, 8, 1], 10) == [6, 1]
  {
    BestFitTwoFullBinsUpto2();
    BestSlotIs([6, 2], 1, 10, 1);
    Step(Best, [4, 8], 1, 10, [6, 2], 1, [6, 1]);
    assert [4, 8] + [1] == [4, 8, 1];
  }

  /** Best-Fit state after the first 4 items of `BestFitTwoFullBins`. */
  lemma BestFitTwoFullBinsUpto4()
    ensures Pack(Best, [4, 8, 1, 4], 10) == [2, 1]
  {
    BestFitTwoFullBinsUpto3();
    BestSlotIs([6, 1], 4, 10, 0);
    Step(Best, [4, 8, 1], 4, 10, [6, 1], 0, [2, 1]);
    assert [4, 8, 1] + [4] == [4, 8, 1, 4];
  }

  /** Best-Fit state after the first 5 items of `BestFitTwoFullBins`. */
  lemma BestFitTwoFullBinsUpto5()
    ensures Pack(Best, [4, 8, 1, 4, 2], 10) == [0, 1]
  {
    BestFitTwoFullBinsUpto4();
    BestSlotIs([2, 1], 2, 10, 0);
    Step(Best, [4, 8, 1, 4], 2, 10, [2, 1], 0, [0, 1]);
    assert [4, 8, 1, 4] + [2] == [4, 8, 1, 4, 2];
  }

  /** The same items under Best-Fit: the 1 goes into the second bin, where it
      leaves less room, and two bins are again filled exactly. */
  lemma BestFitTwoFullBins()
    ensures Pack(Best, [4, 8, 1, 4, 2, 1], 10) == [0, 0]
  {
    BestFitTwoFullBinsUpto5();
    BestSlotIs([0, 1], 1, 10, 1);
    Step(Best, [4, 8, 1, 4, 2], 1, 10, [0, 1], 1, [0, 0]);
    assert [4, 8, 1, 4, 2] + [1] == [4, 8, 1, 4, 2, 1];
  }

  /** First-Fit state after the first 2 items of `FirstFitFourBins`. */
  lemma FirstFitFourBinsUpto2()
    ensures Pack(First, [9, 8], 10) == [1, 2]
  {
    FirstSlotIs([1], 8, 1);
    Step(First, [9], 8, 10, [1], 1, [1, 2]);
    assert [9] + [8] == [9, 8];
  }

  /** First-Fit state after the first 3 items of `FirstFitFourBins`. */
  lemma FirstFitFourBinsUpto3()
    ensures Pack(First, [9, 8, 2], 10) == [1, 0]
  {
    FirstFitFourBinsUpto2();
    FirstSlotIs([1, 2], 2, 1);
    Step(First, [9, 8], 2, 10, [1, 2], 1, [1, 0]);
    assert [9, 8] + [2] == [9, 8, 2];
  }

  /** First-Fit state after the first 4 items of `FirstFitFourBins`. */
  lemma FirstFitFourBinsUpto4()
    ensures Pack(First, [9, 8, 2, 2], 10) == [1, 0, 8]
  {
    FirstFitFourBinsUpto3();
    FirstSlotIs([1, 0], 2, 2);
    Step(First, [9, 8, 2], 2, 10, [1, 0], 2, [1, 0, 8]);
    assert [9, 8, 2] + [2] == [9, 8, 2, 2];
  }

  /** First-Fit state after the first 5 items of `FirstFitFourBins`. */
  lemma FirstFitFourBinsUpto5()
    ensures Pack(First, [9, 8, 2, 2, 5], 10) == [1, 0, 3]
  {
    FirstFitFourBinsUpto4();
    FirstSlotIs([1, 0, 8], 5, 2);
    Step(First, [9, 8, 2, 2], 5, 10, [1, 0, 8], 2, [1, 0, 3]);
    assert [9, 8, 2, 2] + [5] == [9, 8, 2, 2, 5];
  }

  /** Items 9, 8, 2, 2, 5, 4 (total 30): First-Fit uses four bins. */
  lemma FirstFitFourBins()
    ensures Pack(First, [9, 8, 2, 2, 5, 4], 10) == [1, 0, 3, 6]
  {
    FirstFitFourBinsUpto5();
    FirstSlotIs([1, 0, 3], 4, 3);
    Step(First, [9, 8, 2, 2, 5], 4, 10, [1, 0, 3], 3, [1, 0, 3, 6]);
    assert [9, 8, 2, 2, 5] + [4] == [9, 8, 2, 2, 5, 4];
  }

  /** The items 9, 8, 2, 2, 5, 4 in non-increasing order. */
  lemma DescendingExample()
    ensures Descending([9, 8, 2, 2, 5, 4]) == [9, 8, 5, 4, 2, 2]
  {
    DescendingIs([9, 8, 2, 2, 5, 4], [9, 8, 5, 4, 2, 2]);
  }

  /** First-Fit state after the first 3 items of `FirstFitSortedFourBins`. */
  lemma FirstFitSortedUpto3()
    ensures Pack(First, [9, 8, 5], 10) == [1, 2, 5]
  {
    FirstFitFourBinsUpto2();
    FirstSlotIs([1, 2], 5, 2);
    Step(First, [9, 8], 5, 10, [1, 2], 2, [1, 2, 5]);
    assert [9, 8] + [5] == [9, 8, 5];
  }

  /** First-Fit state after the first 4 items of `FirstFitSortedFourBins`. */
  lemma FirstFitSortedUpto4()
    ensures Pack(First, [9, 8, 5, 4], 10) == [1, 2, 1]
  {
    FirstFitSortedUpto3();
    FirstSlotIs([1, 2, 5], 4, 2);
    Step(First, [9, 8, 5], 4, 10, [1, 2, 5], 2, [1, 2, 1]);
    assert [9, 8, 5] + [4] == [9, 8, 5, 4];
  }

  /** First-Fit state after the first 5 items of `FirstFitSortedFourBins`. */
  lemma FirstFitSortedUpto5()
    ensures Pack(First, [9, 8, 5, 4, 2], 10) == [1, 0, 1]
  {
    FirstFitSortedUpto4();
    FirstSlotIs([1, 2, 1], 2, 1);
    Step(First, [9, 8, 5, 4], 2, 10, [1, 2, 1], 1, [1, 0, 1]);
    assert [9, 8, 5, 4] + [2] == [9, 8, 5, 4, 2];
  }

  /** First-Fit on the sorted items 9, 8, 5, 4, 2, 2. */
  lemma FirstFitSortedFourBins()
    ensures Pack(First, [9, 8, 5, 4, 2, 2], 10) == [1, 0, 1, 8]
  {
    FirstFitSortedUpto5();
    FirstSlotIs([1, 0, 1], 2, 3);
    Step(First, [9, 8, 5, 4, 2], 2, 10, [1, 0, 1], 3, [1, 0, 1, 8]);
    assert [9, 8, 5, 4, 2] + [2] == [9, 8, 5, 4, 2, 2];
  }

  /** First-Fit-Decreasing on 9, 8, 2, 2, 5, 4 uses four bins as well: the 9
      shares a bin with no other item, so the 30 units cannot fill three
      bins exactly. */
  lemma FirstFitDecFourBins()
    ensures |Pack(First, Descending([9, 8, 2, 2, 5, 4]), 10)| == 4
  {
    DescendingExample();
    FirstFitSortedFourBins();
  }

  /** Outside the valid range Best-Fit's sentinel shows: after an item of
      weight -5 the one bin has 15 left; an item of weight 0 would leave 15
      there, which is not below the sentinel 11, so Best-Fit opens a second
      bin where First-Fit uses the first. */
  lemma SentinelSkipsRoomyBin()
    ensures Pack(Best, [-5, 0], 10) == [15, 10]
    ensures Pack(First, [-5, 0], 10) == [15]
  {
    Step(Best, [-5], 0, 10, [15], 1, [15, 10]);
    FirstSlotIs([15], 0, 0);
    Step(First, [-5], 0, 10, [15], 0, [15]);
    assert [-5] + [0] == [-5, 0];
  }
}
