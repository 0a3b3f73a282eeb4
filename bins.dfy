/**
  The "remaining capacity per bin" bookkeeping shared by the First-Fit and
  Best-Fit heuristics, written as functions on sequences.

  A packing state is the sequence `bins` of remaining capacities of the bins
  opened so far, in the order they were opened (the prefix `bin_rem[0..res)`
  of the source's local array; `res` is its length). `Pack(rule, ws, c)` is the
  state after the items `ws` have been placed one by one by `rule`; the
  imperative heuristics in module BinPack are proved to compute exactly it.
 */
module Bins {

  /** Total weight of a sequence of items. */
  function Sum(ws: seq<int>): int
  {
    if ws == [] then 0 else Sum(ws[..|ws| - 1]) + ws[|ws| - 1]
  }

  /** The inputs the heuristics are written for: a positive capacity and
      every weight between 0 and the capacity. */
  predicate ValidInput(ws: seq<int>, c: int)
  {
    c > 0 && forall i :: 0 <= i < |ws| ==> 0 <= ws[i] <= c
  }

  /** Weight held by the open bins: the sum over the bins of `c - remaining`. */
  function Used(bins: seq<int>, c: int): int
  {
    if bins == [] then 0 else Used(bins[..|bins| - 1], c) + (c - bins[|bins| - 1])
  }

  /** The bin First-Fit chooses for an item of weight `w`: the lowest index
      whose remaining capacity is at least `w`, or `|bins|` (a new bin) when
      no open bin has room. */
  function FirstSlot(bins: seq<int>, w: int): (k: nat)
    ensures k <= |bins|
    ensures k < |bins| ==> bins[k] >= w
    ensures forall j :: 0 <= j < k ==> bins[j] < w
  {
    if bins == [] then 0
    else if bins[0] >= w then 0
    else 1 + FirstSlot(bins[1..], w)
  }

  /** The bin Best-Fit chooses for an item of weight `w`. The scan starts from
      the sentinel leftover `c + 1` and takes a bin only when the item fits and
      its leftover `bins[k] - w` is strictly below the best so far, so the
      candidates are the bins with room whose leftover is at most `c`; among
      them the leftover is minimal and on a tie the lowest index wins.
      `|bins|` (a new bin) when there is no candidate. */
  function BestSlot(bins: seq<int>, w: int, c: int): (k: nat)
    ensures k <= |bins|
    ensures k == |bins| ==> forall j :: 0 <= j < |bins| ==> !(bins[j] >= w && bins[j] - w <= c)
    ensures k < |bins| ==> bins[k] >= w && bins[k] - w <= c
    ensures k < |bins| ==> forall j :: 0 <= j < |bins| && bins[j] >= w && bins[j] - w <= c ==> bins[k] - w <= bins[j] - w
    ensures k < |bins| ==> forall j :: 0 <= j < k && bins[j] >= w && bins[j] - w <= c ==> bins[k] - w < bins[j] - w
  {
    if bins == [] then 0
    else
      var pre := bins[..|bins| - 1];
      var k := BestSlot(pre, w, c);
      var last := |bins| - 1;
      if bins[last] >= w && bins[last] - w <= c && (k == last || bins[last] - w < bins[k] - w) then last
      else if k == last then |bins|
      else k
  }

  /** First-Fit's choice is determined by its contract: the first bin with room. */
  lemma FirstSlotIs(bins: seq<int>, w: int, j: nat)
    requires j <= |bins| && (j < |bins| ==> bins[j] >= w)
    requires forall k :: 0 <= k < j ==> bins[k] < w
    ensures FirstSlot(bins, w) == j
  {
  }

  /** Best-Fit's choice is determined by its contract: a candidate bin, of
      minimal leftover, and strictly better than every earlier candidate. */
  lemma BestSlotIs(bins: seq<int>, w: int, c: int, b: nat)
    requires b < |bins| && bins[b] >= w && bins[b] - w <= c
    requires forall j :: 0 <= j < |bins| && bins[j] >= w && bins[j] - w <= c ==> bins[b] - w <= bins[j] - w
    requires forall j :: 0 <= j < b && bins[j] >= w && bins[j] - w <= c ==> bins[b] - w < bins[j] - w
    ensures BestSlot(bins, w, c) == b
  {
  }

  /** The two placement rules. */
  datatype Rule = First | Best

  function Slot(rule: Rule, bins: seq<int>, w: int, c: int): (k: nat)
    ensures k <= |bins|
    ensures k < |bins| ==> bins[k] >= w
  {
    match rule
    case First => FirstSlot(bins, w)
    case Best => BestSlot(bins, w, c)
  }

  /** Puts an item of weight `w` into bin `k`, or into a new bin with
      remaining capacity `c - w` appended after the open ones when `k == |bins|`;
      a bin is added only in the second case. */
  function Place(bins: seq<int>, k: nat, w: int, c: int): (r: seq<int>)
    requires k <= |bins|
    ensures |r| == if k < |bins| then |bins| else |bins| + 1
  {
    if k < |bins| then bins[k := bins[k] - w] else bins + [c - w]
  }

  /** Placing an item changes only bin `k`, which loses exactly the item's
      weight (a new bin starts from `c`); every other bin keeps its room. */
  lemma PlaceChangesOneBin(bins: seq<int>, k: nat, w: int, c: int)
    requires k <= |bins|
    ensures forall j :: 0 <= j < |bins| && j != k ==> Place(bins, k, w, c)[j] == bins[j]
    ensures Place(bins, k, w, c)[k] == (if k < |bins| then bins[k] else c) - w
  {
  }

  /** The remaining capacities after the items `ws` have been placed in input
      order by `rule`. At most one bin is opened per item, and a bin is opened
      as soon as there is an item. */
  function Pack(rule: Rule, ws: seq<int>, c: int): (bins: seq<int>)
    ensures |bins| <= |ws|
    ensures |bins| == 0 <==> ws == []
  {
    if ws == [] then []
    else
      var bins := Pack(rule, ws[..|ws| - 1], c);
      Place(bins, Slot(rule, bins, ws[|ws| - 1], c), ws[|ws| - 1], c)
  }

  /** One more item: the state after it is the state before with the item placed. */
  lemma PackSnoc(rule: Rule, ws: seq<int>, w: int, c: int)
    ensures Pack(rule, ws + [w], c)
         == Place(Pack(rule, ws, c), Slot(rule, Pack(rule, ws, c), w, c), w, c)
  {
    assert (ws + [w])[..|ws|] == ws;
  }

  /** The same step stated for item `i`, the form the loops of the
      heuristics use. */
  lemma PackStep(rule: Rule, ws: seq<int>, i: nat, c: int)
    requires i < |ws|
    ensures Pack(rule, ws[..i + 1], c)
         == Place(Pack(rule, ws[..i], c), Slot(rule, Pack(rule, ws[..i], c), ws[i], c), ws[i], c)
  {
    assert ws[..i + 1] == ws[..i] + [ws[i]];
    PackSnoc(rule, ws[..i], ws[i], c);
  }

  /** A new bin is opened for an item exactly when no open bin has room for it;
      otherwise the number of bins stays the same. For Best-Fit this rests on
      the input being valid, which keeps the sentinel out of the way. */
  lemma OpensBinIff(rule: Rule, ws: seq<int>, w: int, c: int)
    requires rule == Best ==> ValidInput(ws, c) && 0 <= w <= c
    ensures var bins := Pack(rule, ws, c);
      (|Pack(rule, ws + [w], c)| == |bins| + 1 <==> forall j :: 0 <= j < |bins| ==> bins[j] < w)
    ensures var bins := Pack(rule, ws, c);
      (|Pack(rule, ws + [w], c)| == |bins| <==> exists j :: 0 <= j < |bins| && bins[j] >= w)
  {
    PackSnoc(rule, ws, w, c);
    var bins := Pack(rule, ws, c);
    var k := Slot(rule, bins, w, c);
    if k < |bins| {
      assert bins[k] >= w;
    } else if rule == Best {
      SentinelNeverBinds(ws, w, c);
    }
  }

  /** For valid input every open bin keeps a remaining capacity between 0 and `c`. */
  lemma {:induction false} PackInRange(rule: Rule, ws: seq<int>, c: int)
    requires ValidInput(ws, c)
    ensures forall j :: 0 <= j < |Pack(rule, ws, c)| ==> 0 <= Pack(rule, ws, c)[j] <= c
  {
    if ws != [] {
      var pre, w := ws[..|ws| - 1], ws[|ws| - 1];
      assert ValidInput(pre, c);
      PackInRange(rule, pre, c);
      var bins := Pack(rule, pre, c);
      var k := Slot(rule, bins, w, c);
      assert Pack(rule, ws, c) == Place(bins, k, w, c);
      if k < |bins| {
        assert 0 <= bins[k] - w <= c;
      } else {
        assert 0 <= c - w <= c;
      }
    }
  }

  /** On valid input the sentinel never excludes a bin: Best-Fit opens a new
      bin exactly when no open bin has room, and otherwise chooses a bin of
      least leftover among all the bins with room, the earliest on a tie. */
  lemma SentinelNeverBinds(ws: seq<int>, w: int, c: int)
    requires ValidInput(ws, c) && 0 <= w <= c
    ensures var bins := Pack(Best, ws, c); var k := BestSlot(bins, w, c);
      k == |bins| <==> forall j :: 0 <= j < |bins| ==> bins[j] < w
    ensures var bins := Pack(Best, ws, c); var k := BestSlot(bins, w, c);
      k < |bins| ==> forall j :: 0 <= j < |bins| && bins[j] >= w ==> bins[k] - w <= bins[j] - w
    ensures var bins := Pack(Best, ws, c); var k := BestSlot(bins, w, c);
      k < |bins| ==> forall j :: 0 <= j < k && bins[j] >= w ==> bins[k] - w < bins[j] - w
  {
    PackInRange(Best, ws, c);
  }

  /** Replacing one remaining capacity changes the held weight by the difference. */
  lemma {:induction false} UsedUpdate(bins: seq<int>, k: nat, v: int, c: int)
    requires k < |bins|
    ensures Used(bins[k := v], c) == Used(bins, c) + bins[k] - v
  {
    var last := |bins| - 1;
    if k < last {
      assert bins[k := v][..last] == bins[..last][k := v];
      UsedUpdate(bins[..last], k, v, c);
    } else {
      assert bins[k := v][..last] == bins[..last];
    }
  }

  /** Placing an item adds exactly its weight to the held weight. */
  lemma PlaceUsed(bins: seq<int>, k: nat, w: int, c: int)
    requires k <= |bins|
    ensures Used(Place(bins, k, w, c), c) == Used(bins, c) + w
  {
    if k < |bins| {
      UsedUpdate(bins, k, bins[k] - w, c);
    } else {
      assert (bins + [c - w])[..|bins|] == bins;
    }
  }

  /** Weight is conserved: the bins hold exactly the weight of the items placed. */
  lemma {:induction false} PackConserves(rule: Rule, ws: seq<int>, c: int)
    ensures Used(Pack(rule, ws, c), c) == Sum(ws)
  {
    if ws != [] {
      var pre := ws[..|ws| - 1];
      PackConserves(rule, pre, c);
      var bins := Pack(rule, pre, c);
      PlaceUsed(bins, Slot(rule, bins, ws[|ws| - 1], c), ws[|ws| - 1], c);
    }
  }

  /** Bins that are never over-full hold at most `c` each. */
  lemma {:induction false} UsedAtMost(bins: seq<int>, c: int)
    requires forall j :: 0 <= j < |bins| ==> bins[j] >= 0
    ensures Used(bins, c) <= |bins| * c
  {
    if bins != [] {
      UsedAtMost(bins[..|bins| - 1], c);
    }
  }

  /** The counting bound: the bins opened can hold all the weight, that is,
      the number of bins is at least the total weight divided by `c`, rounded up. */
  lemma CountLowerBound(rule: Rule, ws: seq<int>, c: int)
    requires ValidInput(ws, c)
    ensures Sum(ws) <= |Pack(rule, ws, c)| * c
  {
    PackConserves(rule, ws, c);
    PackInRange(rule, ws, c);
    UsedAtMost(Pack(rule, ws, c), c);
  }

  /** No two open bins could be merged: any two of them together hold more
      than `c`, i.e. their remaining capacities add up to less than `c`. */
  predicate NoTwoMergeable(bins: seq<int>, c: int)
  {
    forall j, k :: 0 <= j < k < |bins| ==> bins[j] + bins[k] < c
  }

  /** Both rules open a bin only when no open bin has room and only ever
      shrink the remaining capacity of a bin, so no two bins are mergeable. */
  lemma {:induction false} PackNoTwoMergeable(rule: Rule, ws: seq<int>, c: int)
    requires ValidInput(ws, c)
    ensures NoTwoMergeable(Pack(rule, ws, c), c)
  {
    if ws != [] {
      var pre := ws[..|ws| - 1];
      var w := ws[|ws| - 1];
      assert ValidInput(pre, c);
      PackNoTwoMergeable(rule, pre, c);
      var bins := Pack(rule, pre, c);
      var k := Slot(rule, bins, w, c);
      if k == |bins| && rule == Best {
        SentinelNeverBinds(pre, w, c);
      }
      PlaceNoTwoMergeable(bins, k, w, c);
    }
  }

  /** Putting a non-negative weight into a bin, or into a new bin when no bin
      has room for it, keeps every two bins unmergeable. */
  lemma PlaceNoTwoMergeable(bins: seq<int>, k: nat, w: int, c: int)
    requires k <= |bins| && NoTwoMergeable(bins, c) && w >= 0
    requires k == |bins| ==> forall j :: 0 <= j < |bins| ==> bins[j] < w
    ensures NoTwoMergeable(Place(bins, k, w, c), c)
  {
  }

  /** Bins each holding more than half of `c` hold more than half of `c` times their number. */
  lemma {:induction false} UsedOverHalf(bins: seq<int>, c: int)
    requires forall j :: 0 <= j < |bins| ==> 2 * (c - bins[j]) > c
    ensures 2 * Used(bins, c) >= |bins| * c
  {
    if bins != [] {
      UsedOverHalf(bins[..|bins| - 1], c);
    }
  }

  /** When no two bins are mergeable and there are at least two of them, the
      bins are on average more than half full. */
  lemma {:induction false} MoreThanHalfFull(bins: seq<int>, c: int)
    requires |bins| >= 2 && NoTwoMergeable(bins, c)
    ensures 2 * Used(bins, c) > |bins| * c
  {
    var n := |bins|;
    var pre := bins[..n - 1];
    if n == 2 {
      assert pre[..0] == [];
      assert Used(pre, c) == c - bins[0];
      assert bins[0] + bins[1] < c;
    } else if 2 * (c - bins[n - 1]) > c {
      assert NoTwoMergeable(pre, c);
      MoreThanHalfFull(pre, c);
      Distribute(n - 1, 1, c);
    } else {
      LastAtMostHalf(bins, c);
    }
  }

  /** The case of `MoreThanHalfFull` where the last bin is at most half full:
      then every other bin is more than half full, and the last two together
      hold more than `c`. */
  lemma LastAtMostHalf(bins: seq<int>, c: int)
    requires |bins| >= 3 && NoTwoMergeable(bins, c)
    requires 2 * (c - bins[|bins| - 1]) <= c
    ensures 2 * Used(bins, c) > |bins| * c
  {
    var n := |bins|;
    var pre := bins[..n - 1];
    var front := bins[..n - 2];
    assert pre[..n - 2] == front;
    assert forall j :: 0 <= j < |front| ==> 2 * (c - front[j]) > c by {
      forall j | 0 <= j < |front|
        ensures 2 * (c - front[j]) > c
      {
        assert bins[j] + bins[n - 1] < c;
      }
    }
    UsedOverHalf(front, c);
    assert Used(pre, c) == Used(front, c) + (c - bins[n - 2]);
    assert Used(bins, c) == Used(pre, c) + (c - bins[n - 1]);
    assert bins[n - 2] + bins[n - 1] < c;
    Distribute(|front|, 2, c);
  }

  /** The distributivity step the nonlinear arithmetic of `MoreThanHalfFull`
      and `LastAtMostHalf` needs. */
  lemma Distribute(a: int, b: int, c: int)
    ensures (a + b) * c == a * c + b * c
  {
  }

  /** The classic guarantee of First-Fit and Best-Fit: once two or more bins
      are open, fewer than `2 * Sum(ws) / c` bins are used. */
  lemma LessThanTwiceLowerBound(rule: Rule, ws: seq<int>, c: int)
    requires ValidInput(ws, c)
    requires |Pack(rule, ws, c)| >= 2
    ensures |Pack(rule, ws, c)| * c < 2 * Sum(ws)
  {
    PackNoTwoMergeable(rule, ws, c);
    MoreThanHalfFull(Pack(rule, ws, c), c);
    PackConserves(rule, ws, c);
  }

  /** When every item fills a whole bin, each item gets a bin of its own and
      every bin is left with no room, under either rule. */
  lemma {:induction false} AllFullItems(rule: Rule, ws: seq<int>, c: int)
    requires c > 0 && forall i :: 0 <= i < |ws| ==> ws[i] == c
    ensures |Pack(rule, ws, c)| == |ws|
    ensures forall j :: 0 <= j < |ws| ==> Pack(rule, ws, c)[j] == 0
  {
    if ws != [] {
      var pre := ws[..|ws| - 1];
      AllFullItems(rule, pre, c);
      assert ValidInput(pre, c);
      var bins := Pack(rule, pre, c);
      assert forall j :: 0 <= j < |bins| ==> bins[j] < c;
      OpensBinIff(rule, pre, c, c);
      PackSnoc(rule, pre, c, c);
      assert pre + [c] == ws;
    }
  }

  /** Taking out the item at `k` lowers the total by its weight. */
  lemma {:induction false} SumRemove(s: seq<int>, k: nat)
    requires k < |s|
    ensures Sum(s) == Sum(s[..k] + s[k + 1..]) + s[k]
  {
    var last := |s| - 1;
    var pre := s[..last];
    if k == last {
      assert s[..k] + s[k + 1..] == pre;
    } else {
      SumRemove(pre, k);
      var rest := pre[..k] + pre[k + 1..];
      assert s[..k] + s[k + 1..] == rest + [s[last]];
      assert (rest + [s[last]])[..|rest|] == rest;
    }
  }

  /** The total weight does not depend on the order of the items. */
  lemma {:induction false} SumPermutation(a: seq<int>, b: seq<int>)
    requires multiset(a) == multiset(b)
    ensures Sum(a) == Sum(b)
  {
    if a == [] {
      assert |b| == |multiset(b)| == 0;
    } else {
      var last := |a| - 1;
      var x := a[last];
      assert a == a[..last] + [x];
      assert x in multiset(b);
      var k :| 0 <= k < |b| && b[k] == x;
      var rest := b[..k] + b[k + 1..];
      assert b == b[..k] + [x] + b[k + 1..];
      assert multiset(rest) == multiset(b) - multiset{x};
      assert multiset(a[..last]) == multiset(a) - multiset{x};
      SumPermutation(a[..last], rest);
      SumRemove(b, k);
    }
  }

  /** Reordering the items keeps the input valid. */
  lemma ValidInputPermutation(a: seq<int>, b: seq<int>, c: int)
    requires ValidInput(a, c) && multiset(a) == multiset(b)
    ensures ValidInput(b, c)
  {
    forall i | 0 <= i < |b|
      ensures 0 <= b[i] <= c
    {
      assert b[i] in multiset(a);
    }
  }
}
