/**
 * The records step of analyze_clusters.py as a whole (lines 10-32), and what it
 * guarantees: when it fails, and what each row of the records table holds when every
 * sample of the pedigree file has exactly one row of metadata.
 */
module Pipeline {
  import opened Wrappers
  import opened Records

  // ---------------------------------------------------------------------------
  // The whole record join (analyze_clusters.py:10-32)
  // ---------------------------------------------------------------------------

  /** The names given to the columns of the ancestry proportion file. */
  const AdmixColumns: seq<string> := ["A", "B", "C", "D", "E"]

  /** The names given to the columns of the pedigree file. */
  const PedigreeColumns: seq<string> := ["FamilyID", "SampleID", "FatherID", "MotherID", "Sex", "Phenotype"]

  /** The pedigree columns removed from both tables before the merge. */
  const DropColumns: seq<string> := ["FamilyID", "FatherID", "MotherID", "Sex", "Phenotype"]

  /**
   * Lines 13-22: name the columns of the proportion and pedigree files and join them by
   * position. Fails only on a file with the wrong number of columns; otherwise row i is
   * pedigree row i followed by proportion row i, or by missing values when the
   * proportion file is shorter.
   */
  function Identified(proportions: Table, pedigree: Table): (r: Result<Table, Error>)
    requires proportions.Rectangular() && pedigree.Rectangular()
    ensures r.Err? <==> |proportions.columns| != |AdmixColumns| || |pedigree.columns| != |PedigreeColumns|
    ensures r.Ok? ==> r.value.Rectangular() && r.value.columns == PedigreeColumns + AdmixColumns
    ensures r.Ok? ==> |r.value.rows| == |pedigree.rows| && forall i :: 0 <= i < |pedigree.rows| ==>
      r.value.rows[i] == pedigree.rows[i] + RowOrMissing(proportions, i)
  {
    var q :- SetColumns(proportions, AdmixColumns);
    var fam :- SetColumns(pedigree, PedigreeColumns);
    assert forall c :: c in PedigreeColumns ==> c !in AdmixColumns;
    var r := Join(fam, q);
    assert forall i :: 0 <= i < |pedigree.rows| ==>
      r.value.rows[i] == r.value.rows[i][..|PedigreeColumns|] + r.value.rows[i][|PedigreeColumns|..];
    r
  }

  /**
   * Lines 24-29: drop the pedigree-only columns from the identified proportions and
   * from the sample metadata, then merge the two on SampleID.
   */
  function WithSamples(identified: Table, samples: Table): (r: Result<Table, Error>)
    requires identified.Rectangular() && samples.Rectangular()
    ensures r.Ok? ==> r.value.Rectangular()
    ensures "SampleID" in identified.columns ==> (r.Err? <==> "SampleID" !in samples.columns)
  {
    Merge(Drop(identified, DropColumns), Drop(samples, DropColumns), "SampleID")
  }

  /** Lines 31-32: replace population and superpopulation codes by their descriptions. */
  function Described(merged: Table, populations: seq<(string, string)>, superpopulations: seq<(string, string)>)
    : (r: Result<Table, Error>)
    requires merged.Rectangular()
    ensures r.Err? <==> "Population" !in merged.columns || "Superpopulation" !in merged.columns
    ensures r.Ok? ==> r.value.Rectangular() && r.value.columns == merged.columns
    ensures r.Ok? ==> |r.value.rows| == |merged.rows|
    ensures r.Ok? ==> forall i, k :: 0 <= i < |merged.rows| && 0 <= k < |merged.columns| ==>
      r.value.rows[i][k] ==
        if merged.columns[k] == "Population" then Describe(merged.rows[i][k], BuildLookup(populations))
        else if merged.columns[k] == "Superpopulation" then Describe(merged.rows[i][k], BuildLookup(superpopulations))
        else merged.rows[i][k]
  {
    var described :- MapColumn(merged, "Population", BuildLookup(populations));
    MapColumn(described, "Superpopulation", BuildLookup(superpopulations))
  }

  /**
   * The records table of lines 10-32: proportions identified by pedigree row, merged
   * with the sample metadata, codes replaced by descriptions.
   */
  function AncestryRecords(proportions: Table, pedigree: Table, samples: Table,
                           populations: seq<(string, string)>, superpopulations: seq<(string, string)>)
    : (r: Result<Table, Error>)
    requires proportions.Rectangular() && pedigree.Rectangular() && samples.Rectangular()
    ensures r.Ok? ==> r.value.Rectangular()
  {
    var identified :- Identified(proportions, pedigree);
    var merged :- WithSamples(identified, samples);
    Described(merged, populations, superpopulations)
  }

  /**
   * After the merge, the Population and Superpopulation columns are there exactly when
   * the sample metadata has them.
   */
  lemma DescribedColumnsFromSamples(identified: Table, samples: Table, c: string)
    requires identified.Rectangular() && samples.Rectangular()
    requires identified.columns == PedigreeColumns + AdmixColumns && "SampleID" in samples.columns
    requires c == "Population" || c == "Superpopulation"
    ensures c in WithSamples(identified, samples).value.columns <==> c in samples.columns
  {
    var df, ds := Drop(identified, DropColumns), Drop(samples, DropColumns);
    var rk := IndexOf(ds.columns, "SampleID").value;
    assert c !in df.columns;
    if c in samples.columns {
      MergedHeaderHas(df.columns, ds.columns, "SampleID", rk, c);
    } else {
      assert !Suffixed(c);
      MergedHeaderLacks(df.columns, ds.columns, "SampleID", rk, c);
    }
  }

  /**
   * The records step fails exactly when the proportion file does not have five
   * columns, when the pedigree file does not have six, or when the sample metadata
   * lacks a SampleID, Population or Superpopulation column.
   */
  lemma RecordsFailure(proportions: Table, pedigree: Table, samples: Table,
                       populations: seq<(string, string)>, superpopulations: seq<(string, string)>)
    requires proportions.Rectangular() && pedigree.Rectangular() && samples.Rectangular()
    ensures AncestryRecords(proportions, pedigree, samples, populations, superpopulations).Err? <==>
      || |proportions.columns| != |AdmixColumns|
      || |pedigree.columns| != |PedigreeColumns|
      || "SampleID" !in samples.columns
      || "Population" !in samples.columns
      || "Superpopulation" !in samples.columns
  {
    var identified := Identified(proportions, pedigree);
    if identified.Ok? && "SampleID" in samples.columns {
      DescribedColumnsFromSamples(identified.value, samples, "Population");
      DescribedColumnsFromSamples(identified.value, samples, "Superpopulation");
    }
  }

  lemma KeptSkip(columns: seq<string>, names: seq<string>, i: nat)
    requires i < |columns| && columns[i] in names
    ensures Kept(columns, names, i) == Kept(columns, names, i + 1)
  {
  }

  lemma KeptTake(columns: seq<string>, names: seq<string>, i: nat)
    requires i < |columns| && columns[i] !in names
    ensures Kept(columns, names, i) == [i] + Kept(columns, names, i + 1)
  {
  }

  /** The header of the identified proportions: the pedigree names, then the proportion names. */
  const IdentifiedColumns: seq<string> :=
    ["FamilyID", "SampleID", "FatherID", "MotherID", "Sex", "Phenotype", "A", "B", "C", "D", "E"]

  /**
   * `Kept` on any header of eleven names laid out like the identified one: the first
   * and third to sixth names are dropped, the rest are kept.
   */
  predicate IdentifiedLayout(cols: seq<string>, names: seq<string>)
  {
    && |cols| == 11
    && cols[0] in names && cols[1] !in names
    && cols[2] in names && cols[3] in names && cols[4] in names && cols[5] in names
    && cols[6] !in names && cols[7] !in names && cols[8] !in names && cols[9] !in names && cols[10] !in names
  }

  lemma KeptTail(cols: seq<string>, names: seq<string>)
    requires IdentifiedLayout(cols, names)
    ensures Kept(cols, names, 6) == [6, 7, 8, 9, 10]
  {
    assert Kept(cols, names, 11) == [];
    KeptTake(cols, names, 10);
    KeptTake(cols, names, 9);
    KeptTake(cols, names, 8);
    KeptTake(cols, names, 7);
    KeptTake(cols, names, 6);
  }

  lemma KeptHead(cols: seq<string>, names: seq<string>)
    requires IdentifiedLayout(cols, names)
    ensures Kept(cols, names, 0) == [1] + Kept(cols, names, 6)
  {
    KeptSkip(cols, names, 5);
    KeptSkip(cols, names, 4);
    KeptSkip(cols, names, 3);
    KeptSkip(cols, names, 2);
    KeptTake(cols, names, 1);
    KeptSkip(cols, names, 0);
  }

  /** The positions the drop keeps in the identified header: SampleID and the proportions. */
  lemma KeptOfIdentified(cols: seq<string>)
    requires cols == PedigreeColumns + AdmixColumns
    ensures Kept(cols, DropColumns, 0) == [1, 6, 7, 8, 9, 10]
  {
    assert cols == IdentifiedColumns;
    assert IdentifiedLayout(cols, DropColumns);
    KeptHead(cols, DropColumns);
    KeptTail(cols, DropColumns);
    assert [1] + Kept(cols, DropColumns, 6) == [1, 6, 7, 8, 9, 10];
  }

  /** Dropping the pedigree-only columns leaves SampleID followed by the five proportions. */
  lemma DroppedIdentified(identified: Table)
    requires identified.Rectangular() && identified.columns == PedigreeColumns + AdmixColumns
    ensures Drop(identified, DropColumns).columns == ["SampleID"] + AdmixColumns
    ensures forall i :: 0 <= i < |identified.rows| ==>
      Drop(identified, DropColumns).rows[i] == [identified.rows[i][1]] + identified.rows[i][6..]
  {
    KeptOfIdentified(identified.columns);
  }

  /**
   * Merging the identified proportions with metadata that has one row for each of
   * their samples keeps every identified row, in order, under its own header.
   */
  lemma MergeComplete(df: Table, ds: Table)
    requires df.Rectangular() && ds.Rectangular()
    requires df.columns == ["SampleID"] + AdmixColumns
    requires "SampleID" in ds.columns && forall c :: c in AdmixColumns ==> c !in ds.columns
    requires var rk := IndexOf(ds.columns, "SampleID").value;
      && UniqueKeys(ds.rows, rk)
      && forall i :: 0 <= i < |df.rows| ==> df.rows[i][0] in KeyColumn(ds.rows, rk)
    ensures Merge(df, ds, "SampleID").Ok?
    ensures var m := Merge(df, ds, "SampleID").value;
      && |m.rows| == |df.rows|
      && m.columns[..|df.columns|] == df.columns
      && forall i :: 0 <= i < |df.rows| ==> m.rows[i][..|df.columns|] == df.rows[i]
  {
    var rk := IndexOf(ds.columns, "SampleID").value;
    assert IndexOf(df.columns, "SampleID") == Some(0);
    MergeOneToOne(df.rows, 0, ds.rows, rk);
    assert LeftHeader(df.columns, ds.columns, "SampleID") == df.columns;
  }

  /** After the drop, identified row i is the SampleID of pedigree row i and its proportions. */
  lemma IdentifiedAfterDrop(proportions: Table, pedigree: Table)
    requires proportions.Rectangular() && pedigree.Rectangular()
    requires |proportions.columns| == |AdmixColumns| && |pedigree.columns| == |PedigreeColumns|
    ensures var df := Drop(Identified(proportions, pedigree).value, DropColumns);
      && df.columns == ["SampleID"] + AdmixColumns
      && |df.rows| == |pedigree.rows|
      && forall i :: 0 <= i < |pedigree.rows| ==> df.rows[i] == [pedigree.rows[i][1]] + RowOrMissing(proportions, i)
  {
    var identified := Identified(proportions, pedigree).value;
    DroppedIdentified(identified);
    forall i | 0 <= i < |pedigree.rows|
      ensures identified.rows[i][1] == pedigree.rows[i][1] && identified.rows[i][6..] == RowOrMissing(proportions, i)
    {
      assert identified.rows[i] == pedigree.rows[i] + RowOrMissing(proportions, i);
    }
  }

  /** Describing codes leaves the SampleID and proportion columns as they are. */
  lemma DescribedKeepsIdentified(merged: Table, populations: seq<(string, string)>, superpopulations: seq<(string, string)>)
    requires merged.Rectangular() && |merged.columns| >= 6 && merged.columns[..6] == ["SampleID"] + AdmixColumns
    requires Described(merged, populations, superpopulations).Ok?
    ensures var r := Described(merged, populations, superpopulations).value;
      r.columns[..6] == ["SampleID"] + AdmixColumns &&
      forall i :: 0 <= i < |merged.rows| ==> r.rows[i][..6] == merged.rows[i][..6]
  {
    var r := Described(merged, populations, superpopulations).value;
    forall i, k | 0 <= i < |merged.rows| && 0 <= k < 6
      ensures r.rows[i][k] == merged.rows[i][k]
    {
      assert merged.columns[k] == merged.columns[..6][k];
    }
  }

  /**
   * Lines 24-29 with metadata that has one row for each identified sample: every
   * identified row is kept, in order, with its SampleID and proportions first.
   */
  lemma WithSamplesComplete(identified: Table, samples: Table)
    requires identified.Rectangular() && samples.Rectangular()
    requires Drop(identified, DropColumns).columns == ["SampleID"] + AdmixColumns
    requires OnlyOnce(samples.columns, "SampleID") && forall c :: c in AdmixColumns ==> c !in samples.columns
    requires var sk := IndexOf(samples.columns, "SampleID").value;
      && UniqueKeys(samples.rows, sk)
      && forall i :: 0 <= i < |identified.rows| ==> Drop(identified, DropColumns).rows[i][0] in KeyColumn(samples.rows, sk)
    ensures WithSamples(identified, samples).Ok?
    ensures var m := WithSamples(identified, samples).value;
      && |m.rows| == |identified.rows|
      && 6 <= |m.columns| && m.columns[..6] == ["SampleID"] + AdmixColumns
      && forall i :: 0 <= i < |identified.rows| ==> m.rows[i][..6] == Drop(identified, DropColumns).rows[i]
  {
    DropKeepsKeys(samples, DropColumns, "SampleID");
    MergeComplete(Drop(identified, DropColumns), Drop(samples, DropColumns));
  }

  /** When the first two steps succeed, the records table is the third step's result. */
  lemma RecordsSteps(proportions: Table, pedigree: Table, samples: Table,
                     populations: seq<(string, string)>, superpopulations: seq<(string, string)>)
    requires proportions.Rectangular() && pedigree.Rectangular() && samples.Rectangular()
    requires Identified(proportions, pedigree).Ok?
    requires WithSamples(Identified(proportions, pedigree).value, samples).Ok?
    ensures AncestryRecords(proportions, pedigree, samples, populations, superpopulations)
         == Described(WithSamples(Identified(proportions, pedigree).value, samples).value, populations, superpopulations)
  {
  }

  /**
   * When the proportion and pedigree files have their five and six columns, and the
   * sample metadata has SampleID once, Population, Superpopulation, no column named
   * like a proportion, and exactly one row for each pedigree sample, the records step
   * succeeds with one row per pedigree row: row i starts with the SampleID of pedigree
   * row i and the five proportions of row i of the proportion file (missing where that
   * file is shorter).
   */
  lemma CompleteRecords(proportions: Table, pedigree: Table, samples: Table,
                        populations: seq<(string, string)>, superpopulations: seq<(string, string)>)
    requires proportions.Rectangular() && pedigree.Rectangular() && samples.Rectangular()
    requires |proportions.columns| == |AdmixColumns| && |pedigree.columns| == |PedigreeColumns|
    requires OnlyOnce(samples.columns, "SampleID")
    requires "Population" in samples.columns && "Superpopulation" in samples.columns
    requires forall c :: c in AdmixColumns ==> c !in samples.columns
    requires var sk := IndexOf(samples.columns, "SampleID").value;
      && UniqueKeys(samples.rows, sk)
      && forall i :: 0 <= i < |pedigree.rows| ==> pedigree.rows[i][1] in KeyColumn(samples.rows, sk)
    ensures AncestryRecords(proportions, pedigree, samples, populations, superpopulations).Ok?
    ensures var r := AncestryRecords(proportions, pedigree, samples, populations, superpopulations).value;
      && |r.rows| == |pedigree.rows|
      && 6 <= |r.columns|
      && r.columns[..6] == ["SampleID"] + AdmixColumns
      && forall i :: 0 <= i < |pedigree.rows| ==>
           r.rows[i][..6] == [pedigree.rows[i][1]] + RowOrMissing(proportions, i)
  {
    var identified := Identified(proportions, pedigree).value;
    var df := Drop(identified, DropColumns);
    IdentifiedAfterDrop(proportions, pedigree);
    var sk := IndexOf(samples.columns, "SampleID").value;
    forall i | 0 <= i < |identified.rows|
      ensures df.rows[i][0] in KeyColumn(samples.rows, sk)
    {
      assert df.rows[i][0] == pedigree.rows[i][1];
    }
    WithSamplesComplete(identified, samples);
    var merged := WithSamples(identified, samples).value;
    DescribedColumnsFromSamples(identified, samples, "Population");
    DescribedColumnsFromSamples(identified, samples, "Superpopulation");
    DescribedKeepsIdentified(merged, populations, superpopulations);
    RecordsSteps(proportions, pedigree, samples, populations, superpopulations);
    var r := Described(merged, populations, superpopulations).value;
    forall i | 0 <= i < |pedigree.rows|
      ensures r.rows[i][..6] == [pedigree.rows[i][1]] + RowOrMissing(proportions, i)
    {
      assert r.rows[i][..6] == merged.rows[i][..6] == df.rows[i];
    }
  }
}
