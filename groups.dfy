/**
 * The rows of the median heatmap of analyze_clusters.py: the (superpopulation,
 * population) keys of `groupby` (lines 34-38), sorted, one row per distinct pair, and
 * the thick lines drawn between superpopulations (lines 79-81).
 */
module Groups {
  import opened Wrappers
  import opened Ordering
  import opened Layout
  import opened Records

  /** Every record's key when both its codes were described; `groupby` drops missing keys. */
  function ResolvedKeys(pairs: seq<(Value, Value)>): (r: seq<(string, string)>)
    ensures forall k :: k in r <==> exists i :: 0 <= i < |pairs| && pairs[i] == (Str(k.0), Str(k.1))
  {
    if pairs == [] then []
    else
      var rest := ResolvedKeys(pairs[1..]);
      assert forall k: (string, string) :: (exists i :: 1 <= i < |pairs| && pairs[i] == (Str(k.0), Str(k.1))) <==>
        (exists i :: 0 <= i < |pairs[1..]| && pairs[1..][i] == (Str(k.0), Str(k.1))) by {
        forall k: (string, string) | exists i :: 1 <= i < |pairs| && pairs[i] == (Str(k.0), Str(k.1))
          ensures exists i :: 0 <= i < |pairs[1..]| && pairs[1..][i] == (Str(k.0), Str(k.1))
        {
          var i :| 1 <= i < |pairs| && pairs[i] == (Str(k.0), Str(k.1));
          assert pairs[1..][i - 1] == pairs[i];
        }
      }
      match pairs[0]
      case (Str(sp), Str(p)) => [(sp, p)] + rest
      case _ => rest
  }

  /**
   * The index of the median (and IQR) table: `groupby(['Superpopulation',
   * 'Population'])` followed by `sort_values` on the same two keys gives each distinct
   * resolved pair once, in ascending order.
   */
  function GroupKeys(pairs: seq<(Value, Value)>): (r: seq<(string, string)>)
    ensures StrictlyAscending(r, PairLess)
    ensures forall k :: k in r <==> exists i :: 0 <= i < |pairs| && pairs[i] == (Str(k.0), Str(k.1))
  {
    PairLessIsStrictTotalOrder();
    SortedUnique(ResolvedKeys(pairs), PairLess)
  }

  /** `index.get_level_values(0)`: the superpopulation of each heatmap row. */
  function Superpops(keys: seq<(string, string)>): (r: seq<string>)
    ensures |r| == |keys| && forall i :: 0 <= i < |keys| ==> r[i] == keys[i].0
  {
    seq(|keys|, i requires 0 <= i < |keys| => keys[i].0)
  }

  /** The rows below which a thick line separates two superpopulations (lines 79-81). */
  function HeatmapBreaks(pairs: seq<(Value, Value)>): seq<nat>
  {
    BreakIdxs(Superpops(GroupKeys(pairs)))
  }

  /** Keys in ascending tuple order have their superpopulations in ascending string order. */
  lemma AscendingKeysSortSuperpops(keys: seq<(string, string)>)
    requires StrictlyAscending(keys, PairLess)
    ensures SortedBy(Superpops(keys), StrLess)
  {
    StrLessIsStrictTotalOrder();
    var sp := Superpops(keys);
    forall i, j | 0 <= i < j < |sp|
      ensures !StrLess(sp[j], sp[i])
    {
      assert PairLess(keys[i], keys[j]);
      assert sp[i] == sp[j] || StrLess(sp[i], sp[j]);
    }
  }

  /** The heatmap's superpopulations are those of the records with both codes described. */
  lemma SuperpopsOfKeys(pairs: seq<(Value, Value)>)
    ensures forall v :: v in Superpops(GroupKeys(pairs)) <==>
      exists i :: 0 <= i < |pairs| && pairs[i].0 == Str(v) && pairs[i].1.Str?
  {
    var keys := GroupKeys(pairs);
    var sp := Superpops(keys);
    forall v
      ensures v in sp <==> exists i :: 0 <= i < |pairs| && pairs[i].0 == Str(v) && pairs[i].1.Str?
    {
      if v in sp {
        var k :| 0 <= k < |sp| && sp[k] == v;
        assert keys[k] in keys;
      }
      if i :| 0 <= i < |pairs| && pairs[i].0 == Str(v) && pairs[i].1.Str? {
        var key := (v, pairs[i].1.s);
        assert key in keys;
        var k :| 0 <= k < |keys| && keys[k] == key;
        assert sp[k] == v;
      }
    }
  }

  /**
   * The heatmap rows of one superpopulation are adjacent, so its lines fall exactly
   * where the superpopulation changes, between consecutive blocks; the blocks' labels
   * are the superpopulations that occur, in ascending order, and there is one line
   * fewer than there are blocks.
   */
  lemma HeatmapBlocks(pairs: seq<(Value, Value)>)
    ensures var sp := Superpops(GroupKeys(pairs));
      && Grouped(sp)
      && (forall j :: j in HeatmapBreaks(pairs) <==> IsChange(sp, j))
      && HeatmapBreaks(pairs) == Separators(sp)
    ensures var sp := Superpops(GroupKeys(pairs));
      |sp| > 0 ==>
        && StrictlyAscending(RunLabels(sp).value, StrLess)
        && (forall v :: v in RunLabels(sp).value <==> exists i :: 0 <= i < |pairs| && pairs[i].0 == Str(v) && pairs[i].1.Str?)
        && |HeatmapBreaks(pairs)| + 1 == |RunLabels(sp).value|
  {
    var sp := Superpops(GroupKeys(pairs));
    StrLessIsStrictTotalOrder();
    AscendingKeysSortSuperpops(GroupKeys(pairs));
    SortedIsGrouped(sp, StrLess);
    SeparatorsAreBreaks(sp);
    if |sp| > 0 {
      LabelsOfSortedRuns(sp, StrLess);
      LabelsOfGroupedRuns(sp);
      SuperpopsOfKeys(pairs);
    }
  }
}
