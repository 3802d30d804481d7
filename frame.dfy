/**
 * The DataFrames that analyze_clusters.py changes in place: `drop(..., inplace=True)`
 * on the proportions and on the sample metadata (lines 26-27) and the reassignment of
 * the Population and Superpopulation columns (lines 31-32), and the records step run
 * as the script runs it, on those frames.
 */
module Frames {
  import opened Wrappers
  import opened Records
  import opened Pipeline

  /** A DataFrame whose header and rows are replaced by in-place operations. */
  class Frame {
    var columns: seq<string>
    var rows: seq<seq<Value>>

    /** The table the frame currently holds. */
    function View(): Table
      reads this
    {
      Table(columns, rows)
    }

    /** Every row has one cell per column. */
    predicate Valid()
      reads this
    {
      View().Rectangular()
    }

    constructor (t: Table)
      requires t.Rectangular()
      ensures Valid() && View() == t
    {
      columns := t.columns;
      rows := t.rows;
    }

    /**
     * `drop(columns=names, inplace=True, errors='ignore')`: the frame now holds the
     * table without the listed columns; a listed name the frame lacks is ignored.
     */
    method DropInPlace(names: seq<string>)
      requires Valid()
      modifies this
      ensures Valid() && View() == Drop(old(View()), names)
      ensures forall c :: c in columns <==> c in old(columns) && c !in names
      ensures |rows| == old(|rows|)
    {
      var t := Drop(View(), names);
      columns, rows := t.columns, t.rows;
    }

    /**
     * `df.c = df.c.map(d)`: when the frame has column c, its cells become their
     * descriptions (missing where d has no entry) and nothing else changes; otherwise
     * the attribute lookup fails and the frame is left as it was.
     */
    method MapColumnInPlace(c: string, d: map<string, string>) returns (found: bool)
      requires Valid()
      modifies this
      ensures found <==> c in old(columns)
      ensures found ==> Valid() && View() == MapColumn(old(View()), c, d).value
      ensures !found ==> View() == old(View())
      ensures columns == old(columns) && |rows| == old(|rows|)
    {
      var r := MapColumn(View(), c, d);
      if r.Err? {
        return false;
      }
      columns, rows := r.value.columns, r.value.rows;
      return true;
    }
  }

  /**
   * Lines 13-32 as the script runs them: name the columns, join, drop in place from
   * both frames, merge, and reassign the two code columns in place. The outcome, error
   * or table, is that of AncestryRecords.
   */
  method BuildRecords(proportions: Table, pedigree: Table, samples: Table,
                      populations: seq<(string, string)>, superpopulations: seq<(string, string)>)
    returns (r: Result<Table, Error>)
    requires proportions.Rectangular() && pedigree.Rectangular() && samples.Rectangular()
    ensures r == AncestryRecords(proportions, pedigree, samples, populations, superpopulations)
  {
    var identified := Identified(proportions, pedigree);
    if identified.Err? {
      return Err(identified.error);
    }
    var df := new Frame(identified.value);
    var ds := new Frame(samples);
    df.DropInPlace(DropColumns);
    ds.DropInPlace(DropColumns);
    var merged := Merge(df.View(), ds.View(), "SampleID");
    if merged.Err? {
      return Err(merged.error);
    }
    var out := new Frame(merged.value);
    var found := out.MapColumnInPlace("Population", BuildLookup(populations));
    if !found {
      return Err(NoSuchColumn("Population"));
    }
    found := out.MapColumnInPlace("Superpopulation", BuildLookup(superpopulations));
    if !found {
      return Err(NoSuchColumn("Superpopulation"));
    }
    return Ok(out.View());
  }
}
