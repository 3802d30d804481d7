/**
 * The superpopulation blocks of the stacked chart (analyze_clusters.py:109, 147-155):
 * the superpopulations in sorted order, how many individuals each has, the cumulative
 * block edges where the heavy separators go, and the block midpoints for the labels.
 */
module Blocks {
  import opened Wrappers
  import opened Ordering
  import opened Layout

  /** `value_counts()[v]`: how many entries of the column equal v. */
  function ValueCount<K(==)>(col: seq<K>, v: K): nat
  {
    multiset(col)[v]
  }

  /**
   * `superpop_order`: `sort_values().unique()` of the superpopulation column, that is,
   * its distinct values in ascending order.
   */
  function SuperpopOrder(col: seq<string>): (order: seq<string>)
    ensures StrictlyAscending(order, StrLess)
    ensures forall v :: v in order <==> v in col
  {
    StrLessIsStrictTotalOrder();
    SortedUnique(col, StrLess)
  }

  /** `group_sizes`: `value_counts().loc[order].values`. */
  function GroupSizes<K(==)>(col: seq<K>, order: seq<K>): seq<nat>
  {
    seq(|order|, k requires 0 <= k < |order| => ValueCount(col, order[k]))
  }

  function Sum(xs: seq<nat>): nat
  {
    if xs == [] then 0 else Sum(xs[..|xs| - 1]) + xs[|xs| - 1]
  }

  /** `np.cumsum`: entry k is the sum of entries 0..k. */
  function CumSum(xs: seq<nat>): seq<nat>
  {
    seq(|xs|, k requires 0 <= k < |xs| => Sum(xs[..k + 1]))
  }

  /** `group_edges`: the cumulative superpopulation sizes, in sorted order. */
  function Edges(col: seq<string>): seq<nat>
  {
    CumSum(GroupSizes(col, SuperpopOrder(col)))
  }

  /** `xs[:-1]`, which is empty for an empty array. */
  function DropLast<T>(xs: seq<T>): seq<T>
  {
    if |xs| == 0 then [] else xs[..|xs| - 1]
  }

  /** The heavy separators: `group_edges[:-1]`. */
  function EdgeSeparators(col: seq<string>): seq<nat>
  {
    DropLast(Edges(col))
  }

  /** `midpoints = group_edges - group_sizes / 2`. */
  function BlockMidpoints(col: seq<string>): seq<real>
  {
    var sizes := GroupSizes(col, SuperpopOrder(col));
    var edges := CumSum(sizes);
    seq(|edges|, k requires 0 <= k < |edges| => edges[k] as real - sizes[k] as real / 2.0)
  }

  // ---------------------------------------------------------------------------
  // Sums
  // ---------------------------------------------------------------------------

  predicate Distinct<K(==)>(xs: seq<K>)
  {
    forall i, j :: 0 <= i < j < |xs| ==> xs[i] != xs[j]
  }

  lemma {:induction false} SumOfZeros(xs: seq<nat>)
    requires forall k :: 0 <= k < |xs| ==> xs[k] == 0
    ensures Sum(xs) == 0
  {
    if xs != [] {
      SumOfZeros(xs[..|xs| - 1]);
    }
  }

  lemma {:induction false} SumPointwise(a: seq<nat>, b: seq<nat>, c: seq<nat>)
    requires |a| == |b| == |c|
    requires forall k :: 0 <= k < |c| ==> c[k] == a[k] + b[k]
    ensures Sum(c) == Sum(a) + Sum(b)
  {
    if c != [] {
      var n := |c| - 1;
      SumPointwise(a[..n], b[..n], c[..n]);
    }
  }

  function Hits<K(==)>(order: seq<K>, x: K): seq<nat>
  {
    seq(|order|, k requires 0 <= k < |order| => if order[k] == x then 1 else 0)
  }

  /** In a sequence without repeats, x is hit once if present and never otherwise. */
  lemma {:induction false} SumOfHits<K>(order: seq<K>, x: K)
    requires Distinct(order)
    ensures Sum(Hits(order, x)) == if x in order then 1 else 0
  {
    if order != [] {
      var n := |order| - 1;
      assert Hits(order, x)[..n] == Hits(order[..n], x);
      SumOfHits(order[..n], x);
      assert order == order[..n] + [order[n]];
      if order[n] == x {
        assert x !in order[..n];
      }
    }
  }

  /**
   * Counting every individual once per distinct value: when `order` lists each value of
   * the column exactly once, the counts add up to the column's length.
   */
  lemma {:induction false} SumOfCounts<K>(col: seq<K>, order: seq<K>)
    requires Distinct(order)
    requires forall v :: v in col ==> v in order
    ensures Sum(GroupSizes(col, order)) == |col|
  {
    if col == [] {
      SumOfZeros(GroupSizes(col, order));
    } else {
      var n := |col| - 1;
      var x := col[n];
      assert col == col[..n] + [x];
      assert multiset(col) == multiset(col[..n]) + multiset{x};
      SumOfCounts(col[..n], order);
      SumPointwise(GroupSizes(col[..n], order), Hits(order, x), GroupSizes(col, order));
      SumOfHits(order, x);
    }
  }

  lemma {:induction false} PrefixSumStep(xs: seq<nat>, k: nat)
    requires k < |xs|
    ensures Sum(xs[..k + 1]) == Sum(xs[..k]) + xs[k]
  {
    assert xs[..k + 1][..k] == xs[..k];
  }

  /** With positive entries the prefix sums strictly increase. */
  lemma {:induction false} PrefixSumsIncrease(xs: seq<nat>, j: nat, k: nat)
    requires j < k < |xs|
    requires forall i :: 0 <= i < |xs| ==> xs[i] > 0
    ensures Sum(xs[..j + 1]) < Sum(xs[..k + 1])
    decreases k - j
  {
    PrefixSumStep(xs, k);
    if j + 1 < k {
      PrefixSumsIncrease(xs, j, k - 1);
    }
  }

  // ---------------------------------------------------------------------------
  // Properties of the blocks
  // ---------------------------------------------------------------------------

  lemma AscendingIsDistinct(order: seq<string>)
    requires StrictlyAscending(order, StrLess)
    ensures Distinct(order)
  {
    forall i, j | 0 <= i < j < |order|
      ensures order[i] != order[j]
    {
      StrLessIrreflexive(order[i]);
    }
  }

  /** Every superpopulation of the sorted order has at least one individual. */
  lemma GroupSizesPositive(col: seq<string>)
    ensures forall k :: 0 <= k < |SuperpopOrder(col)| ==> GroupSizes(col, SuperpopOrder(col))[k] >= 1
  {
    var order := SuperpopOrder(col);
    forall k | 0 <= k < |order|
      ensures ValueCount(col, order[k]) >= 1
    {
      assert order[k] in col;
    }
  }

  /** Prefix sums of positive sizes strictly increase. */
  lemma CumSumIncreases(sizes: seq<nat>)
    requires forall k :: 0 <= k < |sizes| ==> sizes[k] >= 1
    ensures StrictlyIncreasing(CumSum(sizes))
  {
    var edges := CumSum(sizes);
    forall j, k | 0 <= j < k < |sizes|
      ensures edges[j] < edges[k]
    {
      PrefixSumsIncrease(sizes, j, k);
    }
  }

  /** The last edge counts every individual. */
  lemma LastEdge(col: seq<string>)
    requires |col| > 0
    ensures |Edges(col)| > 0 && Edges(col)[|Edges(col)| - 1] == |col|
  {
    var order := SuperpopOrder(col);
    var sizes := GroupSizes(col, order);
    AscendingIsDistinct(order);
    SumOfCounts(col, order);
    assert col[0] in order;
    assert sizes[..|sizes|] == sizes;
  }

  /**
   * Every superpopulation block is non-empty, so the edges strictly increase; there is
   * one edge per distinct superpopulation and the last edge is the number of
   * individuals.
   */
  lemma EdgesCoverIndividuals(col: seq<string>)
    ensures |Edges(col)| == |SuperpopOrder(col)|
    ensures StrictlyIncreasing(Edges(col))
    ensures |col| > 0 ==> Edges(col)[|Edges(col)| - 1] == |col|
    ensures |col| == 0 ==> Edges(col) == []
  {
    GroupSizesPositive(col);
    CumSumIncreases(GroupSizes(col, SuperpopOrder(col)));
    if |col| > 0 {
      LastEdge(col);
    }
  }

  /**
   * Each block label sits halfway between the block's two edges: after the previous
   * edge (0 for the first block) and before its own.
   */
  lemma BlockMidpointsCentered(col: seq<string>)
    ensures |BlockMidpoints(col)| == |Edges(col)|
    ensures forall k :: 0 <= k < |Edges(col)| ==>
      var before := if k == 0 then 0 else Edges(col)[k - 1];
      BlockMidpoints(col)[k] == (before + Edges(col)[k]) as real / 2.0
      && before as real < BlockMidpoints(col)[k] < Edges(col)[k] as real
  {
    var sizes := GroupSizes(col, SuperpopOrder(col));
    GroupSizesPositive(col);
    forall k | 0 <= k < |sizes|
      ensures Edges(col)[k] == (if k == 0 then 0 else Edges(col)[k - 1]) + sizes[k]
    {
      PrefixSumStep(sizes, k);
    }
  }

  /** Run lengths add up, run after run, to the run ends. */
  lemma {:induction false} CumSumOfRunLengths(sizes: seq<nat>, starts: seq<nat>, ends: seq<nat>, k: nat)
    requires |sizes| == |starts| == |ends| && k < |sizes|
    requires starts[0] == 0
    requires forall i :: 0 <= i < |ends| - 1 ==> ends[i] == starts[i + 1]
    requires forall i :: 0 <= i < |sizes| ==> starts[i] + sizes[i] == ends[i]
    ensures Sum(sizes[..k + 1]) == ends[k]
  {
    PrefixSumStep(sizes, k);
    if k > 0 {
      CumSumOfRunLengths(sizes, starts, ends, k - 1);
    }
  }

  /**
   * The distinct values of a sorted permutation `sp` of the column, read off its runs,
   * are the superpopulations in sorted order, and each run is as long as its
   * superpopulation's count.
   */
  lemma RunsOfSortedColumn(col: seq<string>, sp: seq<string>)
    requires |sp| > 0
    requires multiset(sp) == multiset(col)
    requires SortedBy(sp, StrLess)
    ensures RunLabels(sp) == Some(SuperpopOrder(col))
    ensures forall k :: 0 <= k < |RunStarts(sp)| ==>
      RunStarts(sp)[k] + GroupSizes(col, SuperpopOrder(col))[k] == RunEnds(sp)[k]
  {
    var order := SuperpopOrder(col);
    var labels := RunLabels(sp).value;
    StrLessIsStrictTotalOrder();
    LabelsOfSortedRuns(sp, StrLess);
    LabelsOfGroupedRuns(sp);
    forall v
      ensures v in labels <==> v in order
    {
      assert v in sp <==> v in multiset(sp);
      assert v in col <==> v in multiset(col);
    }
    AscendingUnique(labels, order, StrLess);
    RunsTile(sp);
    forall k | 0 <= k < |RunStarts(sp)|
      ensures RunStarts(sp)[k] + GroupSizes(col, order)[k] == RunEnds(sp)[k]
    {
      RunCount(sp, k);
    }
  }

  /** Prefix sums of the run lengths are the run ends. */
  lemma CumSumOfRuns(sizes: seq<nat>, starts: seq<nat>, ends: seq<nat>)
    requires |sizes| == |starts| == |ends| > 0
    requires starts[0] == 0
    requires forall i :: 0 <= i < |ends| - 1 ==> ends[i] == starts[i + 1]
    requires forall i :: 0 <= i < |sizes| ==> starts[i] + sizes[i] == ends[i]
    ensures CumSum(sizes) == ends
  {
    forall k | 0 <= k < |sizes|
      ensures CumSum(sizes)[k] == ends[k]
    {
      CumSumOfRunLengths(sizes, starts, ends, k);
    }
  }

  lemma EdgesEqualRunEnds(col: seq<string>, sp: seq<string>)
    requires |sp| > 0
    requires multiset(sp) == multiset(col)
    requires SortedBy(sp, StrLess)
    ensures Edges(col) == RunEnds(sp)
  {
    RunsOfSortedColumn(col, sp);
    RunsTile(sp);
    CumSumOfRuns(GroupSizes(col, SuperpopOrder(col)), RunStarts(sp), RunEnds(sp));
  }

  /**
   * For the individuals sorted with the superpopulation as leading key (`sp`, a sorted
   * permutation of the column), the blocks are exactly the runs of `sp`: the sorted
   * superpopulations are its run labels, the edges its run ends, the heavy separators
   * `group_edges[:-1]` its change positions, and the block midpoints its run midpoints.
   */
  lemma EdgesAreRunEnds(col: seq<string>, sp: seq<string>)
    requires |col| > 0
    requires multiset(sp) == multiset(col)
    requires SortedBy(sp, StrLess)
    ensures RunLabels(sp) == Some(SuperpopOrder(col))
    ensures Edges(col) == RunEnds(sp)
    ensures EdgeSeparators(col) == Separators(sp) == BreakIdxs(sp)
    ensures BlockMidpoints(col) == RunMidpoints(sp)
  {
    assert |sp| > 0 by {
      assert |multiset(sp)| == |multiset(col)|;
    }
    RunsOfSortedColumn(col, sp);
    EdgesEqualRunEnds(col, sp);
    RunsTile(sp);
    SeparatorsAreBreaks(sp);
    var starts, ends := RunStarts(sp), RunEnds(sp);
    var sizes := GroupSizes(col, SuperpopOrder(col));
    assert DropLast(ends) == starts[1..];
    BlockMidpointsAreRunMidpoints(col, sp);
  }

  lemma BlockMidpointsAreRunMidpoints(col: seq<string>, sp: seq<string>)
    requires |sp| > 0
    requires multiset(sp) == multiset(col)
    requires SortedBy(sp, StrLess)
    ensures BlockMidpoints(col) == RunMidpoints(sp)
  {
    RunsOfSortedColumn(col, sp);
    EdgesEqualRunEnds(col, sp);
    RunsTile(sp);
    var starts, ends := RunStarts(sp), RunEnds(sp);
    var sizes := GroupSizes(col, SuperpopOrder(col));
    var mids, runMids := BlockMidpoints(col), RunMidpoints(sp);
    forall k | 0 <= k < |mids|
      ensures mids[k] == runMids[k]
    {
      var e, st, z := ends[k] as real, starts[k] as real, sizes[k] as real;
      assert mids[k] == e - z / 2.0;
      assert runMids[k] == (st + e) / 2.0;
      assert st + z == e;
    }
  }
}
