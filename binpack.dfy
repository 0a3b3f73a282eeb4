/**
  The three bin-packing heuristics as the program runs them: over an array of
  `n` item weights and a capacity `c`, each returns the number of bins it
  opened. Each keeps a local array `binRem` of `n` remaining capacities, of
  which the first `res` belong to open bins; the loop invariants tie that
  prefix to `Bins.Pack`, so every property proved of `Pack` holds of them.
 */
module BinPack {
  import opened Bins
  import opened Ordering

  /** First-Fit: each item, in input order, goes into the lowest-numbered
      open bin with room for it, or into a new bin when none has room. The
      routine itself asks nothing of the weights or the capacity. */
  method FirstFit(weight: array<int>, n: nat, c: int) returns (res: int)
    requires n <= weight.Length
    ensures res == |Pack(First, weight[..n], c)|
    ensures 0 <= res <= n
  {
    ghost var ws := weight[..n];
    ghost var bins: seq<int> := [];
    res := 0;
    var binRem := new int[n];
    for i := 0 to n
      invariant 0 <= res <= i && res == |bins|
      invariant forall k :: 0 <= k < res ==> binRem[k] == bins[k]
      invariant bins == Pack(First, ws[..i], c)
    {
      assert weight[i] == ws[i];
      res := FirstFitItem(binRem, res, weight[i], c, bins);
      PackStep(First, ws, i, c);
      bins := Place(bins, FirstSlot(bins, ws[i]), ws[i], c);
    }
    assert ws[..n] == ws;
  }

  /** One item under First-Fit: the scan over the `res` open bins, whose
      remaining capacities are `bins`, puts the item of weight `w` into the
      first bin with room, or opens a new bin with `c - w` left. */
  method FirstFitItem(binRem: array<int>, res: nat, w: int, c: int, ghost bins: seq<int>) returns (res': nat)
    requires res == |bins| < binRem.Length
    requires forall k :: 0 <= k < res ==> binRem[k] == bins[k]
    modifies binRem
    ensures res' == |Place(bins, FirstSlot(bins, w), w, c)|
    ensures forall k :: 0 <= k < res' ==> binRem[k] == Place(bins, FirstSlot(bins, w), w, c)[k]
  {
    var j := 0;
    while j < res
      invariant 0 <= j <= res
      invariant forall k :: 0 <= k < res ==> binRem[k] == bins[k]
      invariant forall k :: 0 <= k < j ==> bins[k] < w
    {
      if binRem[j] >= w {
        binRem[j] := binRem[j] - w;
        break;
      }
      j := j + 1;
    }
    res' := res;
    if j == res {
      binRem[res] := c - w;
      res' := res + 1;
    }
    // `j` is the bin that took the item, or the new bin.
    FirstSlotIs(bins, w, j);
  }

  /** First-Fit-Decreasing: sorts the caller's weights in place into
      non-increasing order, then runs First-Fit on them. */
  method FirstFitDec(weight: array<int>, n: nat, c: int) returns (res: int)
    requires n <= weight.Length
    modifies weight
    ensures weight[..n] == Descending(old(weight[..n]))
    ensures weight[n..] == old(weight[n..])
    ensures res == |Pack(First, Descending(old(weight[..n])), c)|
    ensures 0 <= res <= n
  {
    SortDescending(weight, n);
    SortedUnique(weight[..n], Descending(old(weight[..n])));
    res := FirstFit(weight, n, c);
  }

  /** Sorts the first `n` weights in place into non-increasing order (the
      source's library sort with a "greater than" comparison), by insertion. */
  method SortDescending(a: array<int>, n: nat)
    requires n <= a.Length
    modifies a
    ensures NonIncreasing(a[..n])
    ensures multiset(a[..n]) == multiset(old(a[..n]))
    ensures a[n..] == old(a[n..])
  {
    for i := 0 to n
      invariant forall p, q :: 0 <= p < q < i ==> a[p] >= a[q]
      invariant multiset(a[..n]) == multiset(old(a[..n]))
      invariant forall k :: n <= k < a.Length ==> a[k] == old(a[k])
    {
      SinkLast(a, i, n);
    }
  }

  /** With `a[..i]` already non-increasing, moves `a[i]` left past every
      smaller element, so that `a[..i + 1]` is non-increasing. */
  method SinkLast(a: array<int>, i: nat, n: nat)
    requires i < n <= a.Length
    requires forall p, q :: 0 <= p < q < i ==> a[p] >= a[q]
    modifies a
    ensures forall p, q :: 0 <= p < q <= i ==> a[p] >= a[q]
    ensures multiset(a[..n]) == multiset(old(a[..n]))
    ensures forall k :: n <= k < a.Length ==> a[k] == old(a[k])
  {
    var j := i;
    while j > 0 && a[j - 1] < a[j]
      invariant 0 <= j <= i
      invariant forall p, q :: 0 <= p < q <= i && q != j ==> a[p] >= a[q]
      invariant multiset(a[..n]) == multiset(old(a[..n]))
      invariant forall k :: n <= k < a.Length ==> a[k] == old(a[k])
    {
      Swap(a, j - 1, j, n);
      j := j - 1;
    }
  }

  /** Exchanges two of the first `n` elements. */
  method Swap(a: array<int>, i: nat, j: nat, n: nat)
    requires i < j < n <= a.Length
    modifies a
    ensures a[i] == old(a[j]) && a[j] == old(a[i])
    ensures forall k :: 0 <= k < a.Length && k != i && k != j ==> a[k] == old(a[k])
    ensures multiset(a[..n]) == multiset(old(a[..n]))
  {
    a[i], a[j] := a[j], a[i];
  }

  /** The scan of Best-Fit over the `res` open bins, whose remaining
      capacities are `bins`, for an item of weight `w`: `bi` is the bin with
      room whose leftover `min` is smallest (and below the starting sentinel
      `c + 1`), the earliest one on a tie; `min` stays at the sentinel when
      there is no such bin. */
  method ScanBest(binRem: array<int>, res: nat, w: int, c: int, ghost bins: seq<int>) returns (min: int, bi: int)
    requires res == |bins| <= binRem.Length
    requires forall k :: 0 <= k < res ==> binRem[k] == bins[k]
    ensures min == c + 1 <==> BestSlot(bins, w, c) == res
    ensures min != c + 1 ==> bi == BestSlot(bins, w, c) && min == bins[bi] - w
  {
    min, bi := c + 1, 0;
    for j := 0 to res
      invariant min <= c + 1
      invariant min == c + 1 ==> forall k :: 0 <= k < j ==> !(bins[k] >= w && bins[k] - w <= c)
      invariant min != c + 1 ==> bi < j && bins[bi] >= w && min == bins[bi] - w
      invariant min != c + 1 ==> forall k :: 0 <= k < j && bins[k] >= w && bins[k] - w <= c ==> min <= bins[k] - w
      invariant min != c + 1 ==> forall k :: 0 <= k < bi && bins[k] >= w && bins[k] - w <= c ==> min < bins[k] - w
    {
      if binRem[j] >= w && binRem[j] - w < min {
        bi := j;
        min := binRem[j] - w;
      }
    }
    if min != c + 1 {
      BestSlotIs(bins, w, c, bi);
    }
  }

  /** Best-Fit: each item, in input order, goes into the open bin it leaves
      with the least room, the earliest such bin on a tie, or into a new bin
      when none has room. */
  method BestFit(weight: array<int>, n: nat, c: int) returns (res: int)
    requires n <= weight.Length
    ensures res == |Pack(Best, weight[..n], c)|
    ensures 0 <= res <= n
  {
    ghost var ws := weight[..n];
    ghost var bins: seq<int> := [];
    res := 0;
    var binRem := new int[n];
    for i := 0 to n
      invariant 0 <= res <= i && res == |bins|
      invariant forall k :: 0 <= k < res ==> binRem[k] == bins[k]
      invariant bins == Pack(Best, ws[..i], c)
    {
      assert weight[i] == ws[i];
      res := BestFitItem(binRem, res, weight[i], c, bins);
      PackStep(Best, ws, i, c);
      bins := Place(bins, BestSlot(bins, ws[i], c), ws[i], c);
    }
    assert ws[..n] == ws;
  }

  /** One item under Best-Fit: after the scan, `min == c + 1` is the sentinel
      for "no bin has room" and a new bin is opened with `c - w` left;
      otherwise the item goes into bin `bi`. A bin whose leftover would exceed
      `c` is never chosen, which for weights between 0 and `c` never happens
      (`Bins.SentinelNeverBinds`). */
  method BestFitItem(binRem: array<int>, res: nat, w: int, c: int, ghost bins: seq<int>) returns (res': nat)
    requires res == |bins| < binRem.Length
    requires forall k :: 0 <= k < res ==> binRem[k] == bins[k]
    modifies binRem
    ensures res' == |Place(bins, BestSlot(bins, w, c), w, c)|
    ensures forall k :: 0 <= k < res' ==> binRem[k] == Place(bins, BestSlot(bins, w, c), w, c)[k]
  {
    var min, bi := ScanBest(binRem, res, w, c, bins);
    if min == c + 1 {
      binRem[res] := c - w;
      res' := res + 1;
    } else {
      binRem[bi] := binRem[bi] - w;
      res' := res;
    }
  }

  /** First-Fit-Decreasing packs the sorted items, so the counting bound and
      the "fewer than twice the bound" guarantee hold of it against the total
      weight of the items as given. */
  lemma FirstFitDecBounds(ws: seq<int>, c: int)
    requires ValidInput(ws, c)
    ensures Sum(ws) <= |Pack(First, Descending(ws), c)| * c
    ensures |Pack(First, Descending(ws), c)| >= 2 ==> |Pack(First, Descending(ws), c)| * c < 2 * Sum(ws)
  {
    var d := Descending(ws);
    ValidInputPermutation(ws, d, c);
    SumPermutation(ws, d);
    CountLowerBound(First, d, c);
    if |Pack(First, d, c)| >= 2 {
      LessThanTwiceLowerBound(First, d, c);
    }
  }

  /** First-Fit-Decreasing uses the same number of bins however the items
      arrive. */
  lemma FirstFitDecIgnoresOrder(a: seq<int>, b: seq<int>, c: int)
    requires multiset(a) == multiset(b)
    ensures |Pack(First, Descending(a), c)| == |Pack(First, Descending(b), c)|
  {
    DescendingIgnoresOrder(a, b);
  }
}
