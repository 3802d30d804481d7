# Ancestry clusters: records and chart layout

A Dafny model of the data core of `analyze_clusters.py`. The script has two parts.

The first part builds one record per sampled individual:

- it reads per-individual ancestry proportions (components A-E) and a pedigree table, and names their columns;
- it joins the two tables by row position;
- it drops the pedigree-only columns;
- it merges the result with the sample metadata on `SampleID`;
- it replaces the Population and Superpopulation codes with their descriptions, looked up in dictionaries built from two metadata tables.

The second part places the pieces of the two figures:

- the heatmap of per-group medians: one row per (Superpopulation, Population) key of `groupby`, and the thick lines drawn where the superpopulation changes;
- the stacked bar chart of individuals: the superpopulation block edges, separators and label midpoints, and the population run starts, ends, midpoints, labels and thin separators.

Modules, one per file:

- `Wrappers` (`wrappers.dfy`): `Option` and `Result`.
- `Ordering` (`ordering.dfy`): the order Python uses to compare strings and tuples of strings. Also sorted-distinct values, as `sort_values().unique()` gives them.
- `Layout` (`layout.dfy`): break indices, runs of equal keys, run midpoints and labels, and separators. The functions are generic in the key type.
- `Blocks` (`blocks.dfy`): superpopulation value counts, their cumulative sums (block edges) and the block midpoints. The main theorem says the edges are the run ends of the sorted column.
- `Records` (`records.dfy`): cells, tables, and the pandas operations the script uses, as pure functions:
  - the `to_dict` lookup and `Series.map`;
  - setting the column names;
  - the positional `join`;
  - `drop`;
  - the inner `merge`.
- `Pipeline` (`pipeline.dfy`): lines 13-32 composed, with the script's own column names and constants.
- `Groups` (`groups.dfy`): the heatmap's row keys and its superpopulation lines.
- `Frames` (`frame.dfy`): the two in-place steps on a `Frame` class whose methods reassign its `columns` and `rows`:
  - the in-place `drop` (lines 26-27);
  - the column reassignment `df.Population = df.Population.map(...)` (lines 31-32).

  It also holds a method that runs the record step as the script does and is proved to agree with the pure pipeline.

A missing value (`NaN`) is the `Missing` cell. A pandas error that would stop the script is an `Err` of a `Result`:

- a column-name list of the wrong length;
- a column name on both sides of a join;
- a merge key or attribute column that does not exist.

## Model

| member | source | states |
|---|---|---|
| Ordering.StrLessIsStrictTotalOrder | analyze_clusters.py:109 | Python's string comparison is a strict total order: irreflexive, transitive and total on distinct strings. |
| Ordering.PairLessIsStrictTotalOrder | analyze_clusters.py:34-35 | The (Superpopulation, Population) tuple order used to sort the group keys is a strict total order. |
| Ordering.SortedUnique | analyze_clusters.py:109 | `sort_values().unique()` gives a strictly ascending sequence that holds exactly the values of its input. |
| Ordering.AscendingUnique | analyze_clusters.py:109 | Two strictly ascending sequences with the same members are equal, so the sorted distinct values are determined by the set of values. |
| Layout.BreakIdxs | analyze_clusters.py:79-81 | The heatmap break indices increase strictly. An index is a break exactly when the key there differs from the one before. Neither 0 nor n is ever a break. |
| Layout.MaskBreaksAreChanges | analyze_clusters.py:80-81 | Filtering the shifted comparison mask with its redundant `i + 1 < len` guard gives exactly the positions where the key changes. The mask is `Layout.ChangeMask`. |
| Layout.RunStarts | analyze_clusters.py:161 | The population run starts begin with 0 and increase strictly. The starts after the first lie inside the column and are exactly its change positions. |
| Layout.RunsTile | analyze_clusters.py:161-162 | For a non-empty column, the runs tile it: one end per start, each run non-empty, each end the next run's start, and the last end is n. The ends are `Layout.RunEnds`. |
| Layout.EmptyColumnRuns | analyze_clusters.py:159-164 | For an empty column the starts and ends are `[0]` and the one midpoint is 0. There are no separators. Reading the first label fails (`None`). |
| Layout.NoChangeInsideRun | analyze_clusters.py:161-162 | No key change falls strictly inside a run. |
| Layout.RunIsConstant | analyze_clusters.py:161-162 | Every position of a run holds the run's first key. |
| Layout.RunContaining | analyze_clusters.py:161-162 | Every position of the column lies in exactly one run. |
| Layout.SingletonRun | analyze_clusters.py:161-163 | A key that differs from both neighbours forms its own run (i, i+1): a one-member group is neither skipped nor merged. |
| Layout.MidpointsInsideRuns | analyze_clusters.py:163 | There is one midpoint per run. Each is start + length/2 and lies within [start, end). The midpoints are `Layout.RunMidpoints`. |
| Layout.LabelsOfRuns | analyze_clusters.py:164 | A run's label is the key of every position in the run, and consecutive labels differ. The labels are `Layout.RunLabels`. |
| Layout.LabelsOfGroupedRuns | analyze_clusters.py:158-164 | When equal keys are adjacent, the labels are pairwise distinct and are exactly the values that occur. |
| Layout.LabelsOfSortedRuns | analyze_clusters.py:159-164 | A sorted column is grouped, and its run labels are strictly ascending. |
| Layout.SortedIsGrouped | analyze_clusters.py:159 | In a column sorted by a strict total order, equal keys are adjacent. |
| Layout.RunCount | analyze_clusters.py:161-162 | In a grouped column, a run's length is the number of occurrences of its label. |
| Layout.RunValueOnlyInRun | analyze_clusters.py:161-162 | In a grouped column, a run's key occurs nowhere outside the run. |
| Layout.SeparatorsAreBreaks | analyze_clusters.py:174-177 | The thin separators (starts without the first) are the same function of the keys as the heatmap breaks. They are exactly the change positions and never 0. The separators are `Layout.Separators`. |
| Blocks.SuperpopOrder | analyze_clusters.py:109 | The superpopulation order is strictly ascending and holds exactly the superpopulations that occur. |
| Blocks.SumOfCounts | analyze_clusters.py:147 | The value counts, read in an order that covers every value once, add up to the number of individuals. The counts are `Blocks.GroupSizes`. |
| Blocks.GroupSizesPositive | analyze_clusters.py:147 | Every superpopulation in the order has a count of at least one. |
| Blocks.EdgesCoverIndividuals | analyze_clusters.py:147-148 | There is one edge per superpopulation. The edges increase strictly and the last is the number of individuals. An empty column has no edges. The edges are `Blocks.Edges`. |
| Blocks.BlockMidpointsCentered | analyze_clusters.py:153 | Each label midpoint is the centre of its block, strictly between the previous edge (or 0) and its own edge. The midpoints are `Blocks.BlockMidpoints`. |
| Blocks.RunsOfSortedColumn | analyze_clusters.py:109-148 | For the column sorted as the chart sorts it, the run labels are the superpopulation order and each run is as long as that superpopulation's count. |
| Blocks.EdgesEqualRunEnds | analyze_clusters.py:147-148 | The cumulative counts are the run ends of the sorted superpopulation column. |
| Blocks.EdgesAreRunEnds | analyze_clusters.py:147-155 | The count-based blocks agree with the sorted columns: labels are the runs' labels; edges are run ends; the `[:-1]` lines are the change positions; midpoints are run midpoints. The `[:-1]` lines are `Blocks.EdgeSeparators`. |
| Blocks.BlockMidpointsAreRunMidpoints | analyze_clusters.py:153 | `edges - sizes / 2` equals the run midpoints of the sorted column. |
| Records.BuildLookup | analyze_clusters.py:10-11 | The dictionary's keys are exactly the codes of the metadata table. |
| Records.LookupLastWins | analyze_clusters.py:10-11 | For a repeated code, the dictionary holds the description of its last row. |
| Records.DescribeWithLookup | analyze_clusters.py:10-11 | Mapping a cell through the dictionary gives a missing value exactly when the cell is not a listed code. A listed code gets the description from its last row. One cell of `.map` is `Records.Describe`. The metadata tables are taken as (code, description) string pairs (see "Left out"). |
| Records.SetColumns | analyze_clusters.py:20 | Assigning column names succeeds exactly when there is one per column. It keeps the rows. |
| Records.Join | analyze_clusters.py:22 | The positional join fails exactly when a column name is on both sides. It keeps the left rows and their order. Row i is the left row followed by right row i, or by missing cells past the right's end. |
| Records.KeptMembers | analyze_clusters.py:26 | The kept column positions increase strictly and are exactly those whose name is not listed. |
| Records.Drop | analyze_clusters.py:26-27 | Dropping keeps every row. The result's columns are exactly the old columns that are not listed. |
| Records.DroppedCellsStay | analyze_clusters.py:26-27 | Every remaining cell is the cell of a same-named column of the input, in the same row. |
| Records.DropKeepsKeys | analyze_clusters.py:26-29 | A key column that is not listed survives the drop with the same values. |
| Records.DropIgnoresAbsent | analyze_clusters.py:26-27 | Listing names the table lacks changes nothing (`errors='ignore'`). |
| Records.Matches | analyze_clusters.py:29 | Every row matched to a left row is that left row followed by a right row with the same key, without the right key cell. The converse is Records.MatchesComplete. |
| Records.MergeRows | analyze_clusters.py:29 | Every merged row is a left row followed by a right row with an equal key, without the right key cell. The converse is Records.MergeRowsComplete. |
| Records.HeaderWithoutOverlap | analyze_clusters.py:29 | When only the key is shared, the merged header is the left header followed by the right header without the key. |
| Records.MergedHeaderHas | analyze_clusters.py:29 | A right-only column name appears unchanged in the merged header. |
| Records.MergedHeaderLacks | analyze_clusters.py:29 | A name on neither side that does not end in `_x`/`_y` is not in the merged header. |
| Records.MergeRowsWidth | analyze_clusters.py:29 | Every merged row has one cell fewer than the two widths together. |
| Records.Merge | analyze_clusters.py:29 | The merge fails exactly when the key is missing on either side. Otherwise the result is rectangular, with one column fewer than the two headers. Without other shared names, the header is the left one plus the right one without the key. |
| Records.MatchesComplete | analyze_clusters.py:29 | Every right row whose key equals a left row's key yields that left row's merged row, keys unique or not. |
| Records.MergeRowsComplete | analyze_clusters.py:29 | Every (left row, right row) pair with equal keys yields a merged row, keys unique or not. |
| Records.MergedRowsComeFromBoth | analyze_clusters.py:29 | A row is in the merge exactly when it is a left row joined with a right row that has the same key: every merged row comes from such a pair, and every such pair gives a row. |
| Records.MatchesNone | analyze_clusters.py:29 | A left row whose key is not on the right produces no merged row (inner join). |
| Records.MatchesUnique | analyze_clusters.py:29 | With unique right keys, a left row with a matching key produces exactly one merged row. |
| Records.LeftPartsOfMatches | analyze_clusters.py:29 | With unique right keys, the left parts of one left row's matches are that row once if its key is on the right, and nothing otherwise. |
| Records.MergeKeepsSharedInOrder | analyze_clusters.py:29 | With unique right keys, the left parts of the merged rows are the left rows whose key is on the right, in left order, each once. This is the inner-merge order pandas documents from version 2.2 on. |
| Records.MergeOneToOne | analyze_clusters.py:29 | With unique right keys covering every left key, the merge has one row per left row, in order, each joined with its matching right row. |
| Records.MapColumn | analyze_clusters.py:31-32 | Mapping an absent attribute fails. Otherwise the header and row count stay the same, the cells of other columns are unchanged, and the column's cells become their descriptions. |
| Records.MapColumnWithLookup | analyze_clusters.py:31-32 | After the mapping, a cell is missing exactly when its code has no dictionary entry. A listed code becomes the description from its last row. The metadata tables are taken as (code, description) string pairs (see "Left out"). |
| Pipeline.Identified | analyze_clusters.py:13-22 | Naming and joining fail exactly when the proportions do not have 5 columns or the pedigree does not have 6. Otherwise each pedigree row is followed by its proportions (missing past their end) under the 11 named columns. |
| Pipeline.WithSamples | analyze_clusters.py:24-29 | When the joined table has `SampleID`, the drop-and-merge fails exactly when the sample metadata lacks it. |
| Pipeline.Described | analyze_clusters.py:31-32 | Describing fails exactly when Population or Superpopulation is not a column. Otherwise it keeps the header and the rows, and replaces the cells of those two columns by their descriptions. |
| Pipeline.AncestryRecords | analyze_clusters.py:13-32 | A successful record step gives a rectangular table. Its outcome is characterised by RecordsFailure and CompleteRecords. |
| Pipeline.DescribedColumnsFromSamples | analyze_clusters.py:27-32 | After the merge, Population and Superpopulation are columns exactly when the sample metadata has them. |
| Pipeline.RecordsFailure | analyze_clusters.py:13-32 | The record step fails exactly when one of these holds: the proportions do not have 5 columns; the pedigree does not have 6; the sample metadata lacks SampleID, Population or Superpopulation. |
| Pipeline.KeptOfIdentified | analyze_clusters.py:24-26 | Dropping the five pedigree-only names from the joined header keeps positions 1 and 6-10. |
| Pipeline.DroppedIdentified | analyze_clusters.py:24-26 | After the drop, the joined table has the header SampleID, A-E. Each row is the sample's ID followed by its five proportions. |
| Pipeline.IdentifiedAfterDrop | analyze_clusters.py:13-26 | After the join and the drop, row i is pedigree row i's SampleID followed by proportion row i (missing past its end). |
| Pipeline.MergeComplete | analyze_clusters.py:29 | When every SampleID has exactly one metadata row, the merge keeps every joined row in order, as the leading cells of its record. |
| Pipeline.WithSamplesComplete | analyze_clusters.py:26-29 | Both drops and the merge keep every identified row in order. The first six columns are SampleID, A-E. |
| Pipeline.DescribedKeepsIdentified | analyze_clusters.py:31-32 | Describing the codes leaves the ID and proportion cells alone. |
| Pipeline.CompleteRecords | analyze_clusters.py:13-32 | With complete metadata (each sample's ID listed once, the code columns present, no A-E name clash), the record step succeeds with one record per pedigree row, in order. Each record begins with that row's SampleID and its proportions. |
| Groups.ResolvedKeys | analyze_clusters.py:34 | The grouping keys are exactly the records' (Superpopulation, Population) pairs in which both cells were described; missing keys are dropped. |
| Groups.GroupKeys | analyze_clusters.py:34-38 | The heatmap rows are strictly ascending by tuple order, one per distinct resolved pair. |
| Groups.AscendingKeysSortSuperpops | analyze_clusters.py:34-35 | Keys in ascending tuple order have ascending superpopulations. |
| Groups.SuperpopsOfKeys | analyze_clusters.py:34-38 | The heatmap's superpopulations are those of the records with both codes described. |
| Groups.HeatmapBlocks | analyze_clusters.py:79-81 | Each superpopulation's rows are adjacent, and the thick lines fall exactly where the superpopulation changes. The blocks' labels are the superpopulations that occur, in ascending order, and there is one line fewer than blocks. The lines are `Groups.HeatmapBreaks`. |
| Frames.Frame.DropInPlace | analyze_clusters.py:26-27 | The in-place drop leaves the frame holding the pure drop of its old contents: every row, and the unlisted columns only. |
| Frames.Frame.MapColumnInPlace | analyze_clusters.py:31-32 | Reassigning a present column leaves the frame holding the pure mapping of its old contents. An absent attribute is reported and leaves the frame unchanged. |
| Frames.BuildRecords | analyze_clusters.py:13-32 | Running the steps on frames, in place, gives exactly the result (table or error) of the pure record step. |

## Left out

- Reading the five input files (`read_csv`, lines 7-8, 13, 17, 19) is not modelled. The tables they produce are parameters. The two code tables (lines 7-8) are parameters as lists of (code, description) string pairs.
- Drawing, figure sizing, titles, colours, `savefig` and the `goldborn` figure helpers are not modelled. `goldborn` is not part of this model. The model computes the positions and labels the drawing calls receive.
- The median and IQR values (lines 34-38) are floating-point quantiles. Only the key set and the row order of those tables are modelled.
- The cell text loop (lines 52-58) and the composite row labels (lines 42-44) are not modelled. They only format strings.
- The stacked-bar loop (lines 121-135) sums floating-point proportions for drawing and is not modelled.
- `q_matrix` and the individual sort order (lines 106-107, 159) are not modelled. The sort by superpopulation, population and proportions is a precondition instead: the population column is taken as given, and the superpopulation column as sorted (`SortedBy`, a permutation of the records' column).
- A missing superpopulation description is not modelled on the stacked chart (lines 109, 147). The column there is one of strings. In the script, pandas sorts `NaN` last in `superpop_order` and `value_counts` drops it. `.loc[superpop_order]` at line 147 then raises `KeyError`, so the script stops on any unmapped superpopulation code.
- A missing population description is not modelled in the population runs (lines 159-177). At line 161 `nan != nan` holds, so in the script every individual with a missing description starts its own run. The layout functions compare keys with equality and would put adjacent missing values in one run.
- Records.Merge: the `MergeError` pandas raises when the `_x`/`_y` suffixes themselves create a duplicate column name is not modelled.
- Records.Merge: duplicate key columns inside one table are not modelled; the first is used. With repeated right keys, every matching pair still gives a row (Records.MergeRowsComplete), but the row count and order are stated only for unique right keys. The script does not check that the keys are unique.
- Records.MapColumn: a frame with two columns of the same name maps both. In pandas, `df.c` would return a DataFrame there.
- Records.Matches: its own contract states only that each row comes from a matching pair. That every matching pair gives a row is stated by Records.MatchesComplete.
- Records.MergeRows: its own contract states only that each row comes from a matching pair. That every matching pair gives a row is stated by Records.MergeRowsComplete.
- Records.MergeRows: the left-row order of the merge is the inner-merge order pandas documents from version 2.2 on. Earlier versions put left rows with equal keys next to each other. The two differ only when a `SampleID` repeats in the pedigree, and that older order is not modelled.
- Records.Kept: its own contract gives only bounds. Order and membership are stated by Records.KeptMembers.
- Records.BuildLookup: its own contract gives the key set. Last-wins is stated by Records.LookupLastWins.
- Records.BuildLookup: the metadata tables are taken as (code, description) string pairs, not as tables. Three consequences follow:
  - the `KeyError` that lines 10-11 raise when a metadata table lacks its code or description column is not modelled;
  - an empty description cell is not modelled; pandas reads it as `NaN`, so `.map` gives a missing value for that listed code, and the "missing exactly when not a listed code" statements of Records.DescribeWithLookup and Records.MapColumnWithLookup hold only for tables without empty cells;
  - an empty code cell is not modelled; pandas would make it a `NaN` key that a missing cell maps to.
- Pipeline.RecordsFailure: the step is modelled as failing exactly when a column count is wrong or a required column is absent. Three further pandas errors are not modelled:
  - the merge at line 29 raises when `SampleID` is an integer column on one side and a string column on the other; column dtypes are not modelled, so the model compares `Num` with `Str` cells, finds no match and succeeds with no rows;
  - the merge raises when the sample metadata has two `SampleID` columns;
  - the merge raises when the `_x`/`_y` suffixes collide with existing names.
- Pipeline.AncestryRecords: its own contract gives only rectangularity. The error cases and the complete-metadata outcome are stated by Pipeline.RecordsFailure and Pipeline.CompleteRecords.
- Pipeline.WithSamples: its own contract states the error case only when the joined table has `SampleID`. Pipeline.RecordsFailure states it for the whole step.
- Row counts before the positional join are not validated, as in the code: missing proportion rows become missing cells and extra ones are ignored. A script that validated the row counts would fail here instead.
- The records keep every sample-metadata column that is not a pedigree-only name, as the code does. Columns other than the identity, the two codes and the proportions are not removed.
- Indices and counts are unbounded integers. Python's `int` indices are unbounded too. The counts and edges from `value_counts` and `np.cumsum` (lines 147-148) are numpy int64, which cannot overflow for any table that fits in memory. Midpoints are exact rationals (`real`) where the source uses floating-point halves, which are exact for these magnitudes.
