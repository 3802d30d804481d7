/**
 * The hierarchical layout engine of analyze_clusters.py: where a sorted key column
 * changes value, and the run-length encoding of that column (run starts, run ends,
 * label midpoints, labels) that places separators and labels on the charts.
 */
module Layout {
  import opened Wrappers
  import opened Ordering

  /** Position j starts a new run: the key there differs from the one before it. */
  predicate IsChange<K(==)>(keys: seq<K>, j: int)
  {
    1 <= j < |keys| && keys[j - 1] != keys[j]
  }

  lemma PrependIncreasing(a: nat, rest: seq<nat>)
    requires StrictlyIncreasing(rest) && forall x :: x in rest ==> a < x
    ensures StrictlyIncreasing([a] + rest)
  {
    forall j | 0 < j < |[a] + rest|
      ensures a < ([a] + rest)[j]
    {
      assert ([a] + rest)[j] == rest[j - 1] && rest[j - 1] in rest;
    }
  }

  /**
   * Every value occupies one contiguous block: a value seen again at j is also the one
   * just before j. A sorted column has this shape.
   */
  predicate Grouped<K(==)>(s: seq<K>)
  {
    forall i, j :: 0 <= i < j < |s| && s[i] == s[j] ==> s[j - 1] == s[j]
  }

  /** In a grouped column, everything between two equal values is that value too. */
  lemma {:induction false} GroupedBetween<K>(s: seq<K>, x: nat, y: nat, z: nat)
    requires Grouped(s) && x <= z <= y < |s| && s[x] == s[y]
    ensures s[z] == s[x]
    decreases y - z
  {
    if z < y {
      GroupedBetween(s, x, y - 1, z);
    }
  }

  // ---------------------------------------------------------------------------
  // Heatmap: superpopulation break rows (analyze_clusters.py:79-81)
  // ---------------------------------------------------------------------------

  /** `keys[:-1] != keys[1:]`: entry i tells whether keys i and i + 1 differ. */
  function ChangeMask<K(==)>(keys: seq<K>): (mask: seq<bool>)
    ensures |mask| == if |keys| == 0 then 0 else |keys| - 1
  {
    if |keys| == 0 then []
    else seq(|keys| - 1, i requires 0 <= i < |keys| - 1 => keys[i] != keys[i + 1])
  }

  /**
   * `[i + 1 for i, change in enumerate(mask) if change and i + 1 < n]`, enumerating
   * from position i of the mask.
   */
  function MaskBreaks(mask: seq<bool>, n: nat, i: nat): (r: seq<nat>)
    requires i <= |mask|
    decreases |mask| - i
    ensures StrictlyIncreasing(r)
    ensures forall j :: j in r <==> i < j <= |mask| && j < n && mask[j - 1]
  {
    if i == |mask| then []
    else
      var rest := MaskBreaks(mask, n, i + 1);
      PrependIncreasing(i + 1, rest);
      (if mask[i] && i + 1 < n then [i + 1] else []) + rest
  }

  /**
   * The rows after which the heatmap draws a bold line: exactly the positions j in
   * [1, n) where the key changes, in increasing order, so never 0 and never n. The
   * guard `i + 1 < n` of the comprehension never filters anything out.
   */
  function BreakIdxs<K(==)>(keys: seq<K>): (r: seq<nat>)
    ensures StrictlyIncreasing(r)
    ensures forall j :: j in r <==> IsChange(keys, j)
    ensures 0 !in r && |keys| !in r
  {
    MaskBreaks(ChangeMask(keys), |keys|, 0)
  }

  // ---------------------------------------------------------------------------
  // Stacked chart: population runs (analyze_clusters.py:159-164, 174-177)
  // ---------------------------------------------------------------------------

  /** `[i for i in range(lo, n) if s[i] != s[i-1]]` */
  function ChangesFrom<K(==)>(s: seq<K>, lo: nat): (r: seq<nat>)
    requires 1 <= lo
    decreases |s| - lo
    ensures StrictlyIncreasing(r)
    ensures forall j :: j in r <==> lo <= j && IsChange(s, j)
  {
    if lo >= |s| then []
    else
      var rest := ChangesFrom(s, lo + 1);
      PrependIncreasing(lo, rest);
      (if s[lo] != s[lo - 1] then [lo] else []) + rest
  }

  /**
   * `pop_change_starts`: 0 followed by every position where the value differs from
   * its predecessor, in increasing order.
   */
  function RunStarts<K(==)>(s: seq<K>): (r: seq<nat>)
    ensures |r| >= 1 && r[0] == 0
    ensures StrictlyIncreasing(r)
    ensures forall j :: j in r[1..] <==> IsChange(s, j)
    ensures forall k :: 0 < k < |r| ==> r[k] < |s|
  {
    var changes := ChangesFrom(s, 1);
    assert forall k :: 0 <= k < |changes| ==> changes[k] in changes;
    [0] + changes
  }

  /** `pop_change_ends`: the starts shifted by one, then n. */
  function RunEnds<K(==)>(s: seq<K>): seq<nat>
  {
    RunStarts(s)[1..] + [|s|]
  }

  /** `(start + end) / 2` of each run, with Python's true division. */
  function RunMidpoints<K(==)>(s: seq<K>): seq<real>
  {
    var starts, ends := RunStarts(s), RunEnds(s);
    seq(|starts|, k requires 0 <= k < |starts| => (starts[k] + ends[k]) as real / 2.0)
  }

  /**
   * `pop_labels`: the value at each run start. On an empty column the starts are [0]
   * and indexing raises, which is None here.
   */
  function RunLabels<K(==)>(s: seq<K>): (r: Option<seq<K>>)
    ensures r.None? <==> |s| == 0
    ensures r.Some? ==> |r.value| == |RunStarts(s)|
  {
    if |s| == 0 then None
    else
      var starts := RunStarts(s);
      Some(seq(|starts|, k requires 0 <= k < |starts| => s[starts[k]]))
  }

  /**
   * The thin separators of the stacked chart: `pop_change_idxs[1:]`, where
   * `pop_change_idxs` repeats the comprehension of `pop_change_starts`.
   */
  function Separators<K(==)>(s: seq<K>): seq<nat>
  {
    RunStarts(s)[1..]
  }

  // ---------------------------------------------------------------------------
  // Properties of the runs
  // ---------------------------------------------------------------------------

  /**
   * The runs of a non-empty column are non-empty, contiguous and cover [0, n): the
   * first starts at 0, each ends where the next starts, the last ends at n.
   */
  lemma RunsTile<K>(s: seq<K>)
    requires |s| > 0
    ensures |RunEnds(s)| == |RunStarts(s)|
    ensures RunStarts(s)[0] == 0 && RunEnds(s)[|RunEnds(s)| - 1] == |s|
    ensures forall k :: 0 <= k < |RunStarts(s)| ==> RunStarts(s)[k] < RunEnds(s)[k]
    ensures forall k :: 0 <= k < |RunStarts(s)| - 1 ==> RunEnds(s)[k] == RunStarts(s)[k + 1]
  {
    var starts, ends := RunStarts(s), RunEnds(s);
    forall k | 0 <= k < |starts|
      ensures starts[k] < ends[k]
    {
      if k < |starts| - 1 {
        assert ends[k] == starts[k + 1];
      }
    }
  }

  /** An empty column yields the single empty run (0, 0) and no labels. */
  lemma EmptyColumnRuns<K>(s: seq<K>)
    requires |s| == 0
    ensures RunStarts(s) == [0] && RunEnds(s) == [0] && RunLabels(s) == None
    ensures Separators(s) == [] && RunMidpoints(s) == [0.0]
  {
  }

  /** Between the starts of runs k and k + 1 the column has no change position. */
  lemma NoChangeInsideRun<K>(s: seq<K>, k: nat, i: nat)
    requires |s| > 0 && k < |RunStarts(s)|
    requires RunStarts(s)[k] < i < RunEnds(s)[k]
    ensures !IsChange(s, i)
  {
    var starts := RunStarts(s);
    forall m | 0 <= m < |starts|
      ensures starts[m] != i
    {
      if k < m {
        assert starts[k + 1] <= starts[m];
      }
    }
    assert i !in starts[1..];
  }

  /** Every element of a run equals the value at the run's start, that is, its label. */
  lemma {:induction false} RunIsConstant<K>(s: seq<K>, k: nat, i: nat)
    requires |s| > 0 && k < |RunStarts(s)|
    requires RunStarts(s)[k] <= i < RunEnds(s)[k]
    ensures s[i] == s[RunStarts(s)[k]]
    decreases i
  {
    RunsTile(s);
    if i > RunStarts(s)[k] {
      RunIsConstant(s, k, i - 1);
      NoChangeInsideRun(s, k, i);
    }
  }

  /** Every position of a non-empty column lies in exactly one run. */
  lemma RunContaining<K>(s: seq<K>, i: nat) returns (k: nat)
    requires i < |s|
    ensures k < |RunStarts(s)| && RunStarts(s)[k] <= i < RunEnds(s)[k]
    ensures forall m :: 0 <= m < |RunStarts(s)| && RunStarts(s)[m] <= i < RunEnds(s)[m] ==> m == k
  {
    RunsTile(s);
    k := FindRun(s, i, 0);
  }

  /** Scans the runs from run k on for the one holding position i. */
  lemma {:induction false} FindRun<K>(s: seq<K>, i: nat, k: nat) returns (m: nat)
    requires i < |s| && k < |RunStarts(s)| && RunStarts(s)[k] <= i
    ensures k <= m < |RunStarts(s)| && RunStarts(s)[m] <= i < RunEnds(s)[m]
    decreases |RunStarts(s)| - k
  {
    RunsTile(s);
    if i < RunEnds(s)[k] {
      m := k;
    } else {
      m := FindRun(s, i, k + 1);
    }
  }

  /**
   * A value that differs from both neighbours (or sits at an end of the column) is a
   * single-member run: it yields the run (i, i + 1).
   */
  lemma SingletonRun<K>(s: seq<K>, i: nat) returns (k: nat)
    requires i < |s|
    requires i == 0 || s[i - 1] != s[i]
    requires i + 1 == |s| || s[i] != s[i + 1]
    ensures k < |RunStarts(s)| && RunStarts(s)[k] == i && RunEnds(s)[k] == i + 1
  {
    k := RunContaining(s, i);
    var starts, ends := RunStarts(s), RunEnds(s);
    if starts[k] < i {
      NoChangeInsideRun(s, k, i);
    }
    if i + 1 < ends[k] {
      RunIsConstant(s, k, i + 1);
      RunIsConstant(s, k, i);
    }
  }

  /**
   * Each label midpoint is start + length / 2 and lies inside its run:
   * start <= mid < end.
   */
  lemma MidpointsInsideRuns<K>(s: seq<K>)
    requires |s| > 0
    ensures |RunMidpoints(s)| == |RunStarts(s)|
    ensures forall k :: 0 <= k < |RunStarts(s)| ==>
      var start, end := RunStarts(s)[k] as real, RunEnds(s)[k] as real;
      RunMidpoints(s)[k] == start + (end - start) / 2.0 && start <= RunMidpoints(s)[k] < end
  {
    RunsTile(s);
  }

  /**
   * Each label is the value of its whole run, consecutive labels differ, and the
   * value just before a run start belongs to the previous run.
   */
  lemma LabelsOfRuns<K>(s: seq<K>)
    requires |s| > 0
    ensures forall k, i :: 0 <= k < |RunStarts(s)| && RunStarts(s)[k] <= i < RunEnds(s)[k] ==>
      s[i] == RunLabels(s).value[k]
    ensures forall k :: 0 <= k < |RunStarts(s)| - 1 ==> RunLabels(s).value[k] != RunLabels(s).value[k + 1]
  {
    var starts, ends, labels := RunStarts(s), RunEnds(s), RunLabels(s).value;
    RunsTile(s);
    forall k, i | 0 <= k < |starts| && starts[k] <= i < ends[k]
      ensures s[i] == labels[k]
    {
      RunIsConstant(s, k, i);
    }
    forall k | 0 <= k < |starts| - 1
      ensures labels[k] != labels[k + 1]
    {
      assert starts[k + 1] in starts[1..];
      RunIsConstant(s, k, starts[k + 1] - 1);
    }
  }

  /**
   * In a grouped column (every sorted column is one) there is one label per distinct
   * value: the labels are pairwise different and are exactly the column's values.
   */
  lemma LabelsOfGroupedRuns<K>(s: seq<K>)
    requires |s| > 0 && Grouped(s)
    ensures forall a, b :: 0 <= a < b < |RunStarts(s)| ==> RunLabels(s).value[a] != RunLabels(s).value[b]
    ensures forall v :: v in RunLabels(s).value <==> v in s
  {
    var starts, labels := RunStarts(s), RunLabels(s).value;
    forall a, b | 0 <= a < b < |starts|
      ensures labels[a] != labels[b]
    {
      assert starts[a] < starts[b] && starts[b] in starts[1..];
    }
    forall v | v in s
      ensures v in labels
    {
      var i :| 0 <= i < |s| && s[i] == v;
      var k := RunContaining(s, i);
      RunIsConstant(s, k, i);
      assert labels[k] == v;
    }
  }

  /** The labels of a sorted column come out strictly ascending. */
  lemma LabelsOfSortedRuns<K(!new)>(s: seq<K>, less: (K, K) -> bool)
    requires StrictTotalOrder(less) && SortedBy(s, less) && |s| > 0
    ensures Grouped(s)
    ensures StrictlyAscending(RunLabels(s).value, less)
  {
    SortedIsGrouped(s, less);
    LabelsOfGroupedRuns(s);
    var starts, labels := RunStarts(s), RunLabels(s).value;
    forall a, b | 0 <= a < b < |labels|
      ensures less(labels[a], labels[b])
    {
      assert starts[a] < starts[b];
    }
  }

  lemma SortedIsGrouped<K(!new)>(s: seq<K>, less: (K, K) -> bool)
    requires StrictTotalOrder(less) && SortedBy(s, less)
    ensures Grouped(s)
  {
    forall i, j, k | 0 <= i < j < k < |s| && s[i] == s[k]
      ensures s[j] == s[i]
    {
      assert !less(s[j], s[i]) && !less(s[k], s[j]);
    }
  }

  /** In a grouped column, a label occurs exactly as often as its run is long. */
  lemma RunCount<K>(s: seq<K>, k: nat)
    requires |s| > 0 && Grouped(s) && k < |RunStarts(s)|
    ensures multiset(s)[RunLabels(s).value[k]] == RunEnds(s)[k] - RunStarts(s)[k]
  {
    var a, b := RunStarts(s)[k], RunEnds(s)[k];
    RunsTile(s);
    RunValueOnlyInRun(s, k);
    forall i | a <= i < b
      ensures s[i] == s[a]
    {
      RunIsConstant(s, k, i);
    }
    CountOfBlock(s, a, b);
  }

  /** A value that fills s[a..b] and occurs nowhere else occurs b - a times. */
  lemma CountOfBlock<K>(s: seq<K>, a: nat, b: nat)
    requires a < b <= |s|
    requires forall i :: a <= i < b ==> s[i] == s[a]
    requires forall i :: 0 <= i < |s| && (i < a || b <= i) ==> s[i] != s[a]
    ensures multiset(s)[s[a]] == b - a
  {
    var v := s[a];
    assert s == s[..a] + s[a..b] + s[b..];
    assert v !in s[..a];
    assert v !in s[b..];
    ConstantCount(s[a..b], v);
  }

  /** In a grouped column the label of a run occurs nowhere outside that run. */
  lemma RunValueOnlyInRun<K>(s: seq<K>, k: nat)
    requires |s| > 0 && Grouped(s) && k < |RunStarts(s)|
    ensures forall i :: 0 <= i < RunStarts(s)[k] ==> s[i] != s[RunStarts(s)[k]]
    ensures forall i :: RunEnds(s)[k] <= i < |s| ==> s[i] != s[RunStarts(s)[k]]
  {
    var starts, ends := RunStarts(s), RunEnds(s);
    RunsTile(s);
    var a, b := starts[k], ends[k];
    forall i | 0 <= i < a
      ensures s[i] != s[a]
    {
      assert a in starts[1..];
    }
    forall i | b <= i < |s|
      ensures s[i] != s[a]
    {
      assert b in starts[1..];
      RunIsConstant(s, k, b - 1);
      if s[i] == s[a] {
        GroupedBetween(s, a, i, b);
      }
    }
  }

  lemma {:induction false} ConstantCount<K>(t: seq<K>, v: K)
    requires forall i :: 0 <= i < |t| ==> t[i] == v
    ensures multiset(t)[v] == |t|
  {
    if t != [] {
      assert t == [t[0]] + t[1..];
      ConstantCount(t[1..], v);
    }
  }

  /**
   * The heatmap's mask-based break rows and the stacked chart's separators are two
   * computations of the same positions.
   */
  lemma {:induction false} MaskBreaksAreChanges<K>(s: seq<K>, i: nat)
    requires i <= |ChangeMask(s)|
    ensures MaskBreaks(ChangeMask(s), |s|, i) == ChangesFrom(s, i + 1)
    decreases |s| - i
  {
    var mask := ChangeMask(s);
    if i < |mask| {
      MaskBreaksAreChanges(s, i + 1);
      assert mask[i] == (s[i + 1] != s[i]) && i + 1 < |s|;
      assert MaskBreaks(mask, |s|, i) == (if mask[i] then [i + 1] else []) + MaskBreaks(mask, |s|, i + 1);
      assert ChangesFrom(s, i + 1) == (if s[i + 1] != s[i] then [i + 1] else []) + ChangesFrom(s, i + 2);
    }
  }

  /**
   * The thin separators are exactly the change positions, in increasing order, never
   * position 0, and the same list as the break rows computed with the mask.
   */
  lemma SeparatorsAreBreaks<K>(s: seq<K>)
    ensures Separators(s) == BreakIdxs(s)
    ensures forall j :: j in Separators(s) <==> IsChange(s, j)
    ensures 0 !in Separators(s)
  {
    MaskBreaksAreChanges(s, 0);
  }
}
