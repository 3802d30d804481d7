/**
 * The record joiner of analyze_clusters.py (lines 10-32): the code-to-description
 * dictionaries, the positional join of the pedigree rows with the ancestry proportion
 * rows, the dropping of pedigree-only columns, the inner merge with the sample
 * metadata on `SampleID`, and the mapping of codes to descriptions.
 */
module Records {
  import opened Wrappers
  import opened Ordering

  /** One cell of a table; `Missing` is pandas' NaN. */
  datatype Value = Str(s: string) | Num(x: real) | Missing

  datatype Error =
    | LengthMismatch(expected: nat, given: nat)  // `df.columns = names` with the wrong count
    | ColumnOverlap                             // `join` of tables sharing a column name
    | NoSuchColumn(name: string)                // KeyError or AttributeError on a column name

  /** A DataFrame with a default (positional) index: named columns, rows of cells. */
  datatype Table = Table(columns: seq<string>, rows: seq<seq<Value>>) {
    /** Every row has one cell per column, as in every DataFrame. */
    predicate Rectangular() {
      forall i :: 0 <= i < |rows| ==> |rows[i]| == |columns|
    }
  }

  /** Position of the first column named `c`. */
  function IndexOf(columns: seq<string>, c: string): (r: Option<nat>)
    ensures r.None? <==> c !in columns
    ensures r.Some? ==> r.value < |columns| && columns[r.value] == c && c !in columns[..r.value]
  {
    if |columns| == 0 then None
    else if columns[0] == c then Some(0)
    else match IndexOf(columns[1..], c)
      case None => None
      case Some(k) =>
        assert columns[..k + 1] == [columns[0]] + columns[1..][..k];
        Some(k + 1)
  }

  // ---------------------------------------------------------------------------
  // Code -> description dictionaries (analyze_clusters.py:10-11)
  // ---------------------------------------------------------------------------

  /** Entry i is the last one with its code. */
  predicate LastOf(entries: seq<(string, string)>, i: nat)
    requires i < |entries|
  {
    forall j :: i < j < |entries| ==> entries[j].0 != entries[i].0
  }

  /**
   * `set_index(code)[description].to_dict()` over the (code, description) rows of a
   * metadata table: exactly the codes of the table become keys (LookupLastWins: when
   * a code repeats, the last row wins).
   */
  function BuildLookup(entries: seq<(string, string)>): (d: map<string, string>)
    ensures forall c :: c in d <==> exists i :: 0 <= i < |entries| && entries[i].0 == c
  {
    if entries == [] then map[]
    else
      var n := |entries| - 1;
      var d := BuildLookup(entries[..n]);
      assert forall i :: 0 <= i < n ==> entries[..n][i] == entries[i];
      d[entries[n].0 := entries[n].1]
  }

  /** When a code repeats, the dictionary keeps the description of its last row. */
  lemma {:induction false} LookupLastWins(entries: seq<(string, string)>, i: nat)
    requires i < |entries| && LastOf(entries, i)
    ensures BuildLookup(entries)[entries[i].0] == entries[i].1
  {
    var n := |entries| - 1;
    if i < n {
      var prefix := entries[..n];
      assert prefix[i] == entries[i];
      assert LastOf(prefix, i) by {
        forall j | i < j < n
          ensures prefix[j].0 != prefix[i].0
        {
          assert prefix[j] == entries[j];
        }
      }
      LookupLastWins(prefix, i);
    }
  }

  /** One cell of `Series.map(d)`: a code that is a key of d, else NaN. */
  function Describe(v: Value, d: map<string, string>): Value
  {
    if v.Str? && v.s in d then Str(d[v.s]) else Missing
  }

  /**
   * Mapping a code with the dictionary built from a metadata table gives the
   * description of the code's last row when the code is in the table, and a missing
   * value otherwise; it never produces anything but a description from the table or a
   * missing value.
   */
  lemma DescribeWithLookup(entries: seq<(string, string)>, v: Value)
    ensures Describe(v, BuildLookup(entries)).Missing? <==>
      !(v.Str? && exists i :: 0 <= i < |entries| && entries[i].0 == v.s)
    ensures forall i :: 0 <= i < |entries| && v == Str(entries[i].0) && LastOf(entries, i) ==>
      Describe(v, BuildLookup(entries)) == Str(entries[i].1)
    ensures Describe(v, BuildLookup(entries)).Missing? ||
      exists i :: 0 <= i < |entries| && Describe(v, BuildLookup(entries)) == Str(entries[i].1)
  {
    var d := BuildLookup(entries);
    forall i | 0 <= i < |entries| && v == Str(entries[i].0) && LastOf(entries, i)
      ensures Describe(v, d) == Str(entries[i].1)
    {
      LookupLastWins(entries, i);
    }
    if v.Str? && v.s in d {
      var i :| 0 <= i < |entries| && entries[i].0 == v.s;
      var last := LastWith(entries, i);
      LookupLastWins(entries, last);
    }
  }

  /** The last entry with the same code as entry i. */
  lemma {:induction false} LastWith(entries: seq<(string, string)>, i: nat) returns (m: nat)
    requires i < |entries|
    ensures i <= m < |entries| && entries[m].0 == entries[i].0 && LastOf(entries, m)
    decreases |entries| - i
  {
    if j :| i < j < |entries| && entries[j].0 == entries[i].0 {
      m := LastWith(entries, j);
    } else {
      m := i;
    }
  }

  // ---------------------------------------------------------------------------
  // Naming the columns of a headerless file (analyze_clusters.py:15, 20)
  // ---------------------------------------------------------------------------

  /** `df.columns = names`: pandas refuses a list of the wrong length. */
  function SetColumns(t: Table, names: seq<string>): (r: Result<Table, Error>)
    requires t.Rectangular()
    ensures r.Ok? <==> |names| == |t.columns|
    ensures r.Ok? ==> r.value.Rectangular() && r.value.columns == names && r.value.rows == t.rows
  {
    if |names| != |t.columns| then Err(LengthMismatch(|t.columns|, |names|))
    else Ok(Table(names, t.rows))
  }

  // ---------------------------------------------------------------------------
  // Positional join (analyze_clusters.py:22)
  // ---------------------------------------------------------------------------

  function Missings(n: nat): (r: seq<Value>)
    ensures |r| == n && forall j :: 0 <= j < n ==> r[j] == Missing
  {
    seq(n, _ => Missing)
  }

  /** Row i of the table, or missing values where it has no row i. */
  function RowOrMissing(t: Table, i: nat): (r: seq<Value>)
    requires t.Rectangular()
    ensures |r| == |t.columns|
    ensures i < |t.rows| ==> r == t.rows[i]
    ensures i >= |t.rows| ==> forall j :: 0 <= j < |r| ==> r[j] == Missing
  {
    if i < |t.rows| then t.rows[i] else Missings(|t.columns|)
  }

  /**
   * `left.join(right)` on the default index: row i of the result is row i of `left`
   * followed by row i of `right`, or by missing values where `right` has no row i;
   * rows of `right` beyond the length of `left` are not used. Shared column names are
   * refused.
   */
  function Join(left: Table, right: Table): (r: Result<Table, Error>)
    requires left.Rectangular() && right.Rectangular()
    ensures r.Err? <==> exists c :: c in left.columns && c in right.columns
    ensures r.Ok? ==> r.value.Rectangular() && r.value.columns == left.columns + right.columns
    ensures r.Ok? ==> |r.value.rows| == |left.rows|
    ensures r.Ok? ==> forall i :: 0 <= i < |left.rows| ==>
      && r.value.rows[i][..|left.columns|] == left.rows[i]
      && r.value.rows[i][|left.columns|..] == RowOrMissing(right, i)
  {
    if exists c :: c in left.columns && c in right.columns then Err(ColumnOverlap)
    else
      var rows := seq(|left.rows|, i requires 0 <= i < |left.rows| => left.rows[i] + RowOrMissing(right, i));
      Ok(Table(left.columns + right.columns, rows))
  }

  // ---------------------------------------------------------------------------
  // Dropping columns, ignoring absent ones (analyze_clusters.py:24-27)
  // ---------------------------------------------------------------------------

  /** The positions from i on whose column name is not listed in `names`. */
  function Kept(columns: seq<string>, names: seq<string>, i: nat): (r: seq<nat>)
    requires i <= |columns|
    decreases |columns| - i
    ensures forall k :: 0 <= k < |r| ==> i <= r[k] < |columns|
  {
    if i == |columns| then []
    else (if columns[i] !in names then [i] else []) + Kept(columns, names, i + 1)
  }

  /** `Kept` lists, in increasing order, exactly the positions from i on whose name is not listed. */
  lemma {:induction false} KeptMembers(columns: seq<string>, names: seq<string>, i: nat)
    requires i <= |columns|
    ensures StrictlyIncreasing(Kept(columns, names, i))
    ensures forall p :: p in Kept(columns, names, i) <==> i <= p < |columns| && columns[p] !in names
    decreases |columns| - i
  {
    if i < |columns| {
      KeptMembers(columns, names, i + 1);
    }
  }

  function Select<T>(xs: seq<T>, positions: seq<nat>): (r: seq<T>)
    requires forall p :: p in positions ==> p < |xs|
    ensures |r| == |positions|
  {
    assert forall k :: 0 <= k < |positions| ==> positions[k] in positions;
    seq(|positions|, k requires 0 <= k < |positions| => xs[positions[k]])
  }

  /**
   * `drop(columns=names, errors='ignore')`: keeps, in their order and with their
   * cells, exactly the columns whose name is not listed; a listed name the table does
   * not have is ignored.
   */
  function Drop(t: Table, names: seq<string>): (r: Table)
    requires t.Rectangular()
    ensures r.Rectangular() && |r.rows| == |t.rows|
    ensures forall c :: c in r.columns <==> c in t.columns && c !in names
  {
    var kept := Kept(t.columns, names, 0);
    KeptMembers(t.columns, names, 0);
    var r := Table(Select(t.columns, kept),
                   seq(|t.rows|, i requires 0 <= i < |t.rows| => Select(t.rows[i], kept)));
    forall c | c in t.columns && c !in names
      ensures c in r.columns
    {
      var p :| 0 <= p < |t.columns| && t.columns[p] == c;
      var k :| 0 <= k < |kept| && kept[k] == p;
      assert r.columns[k] == c;
    }
    r
  }

  /** Every cell left by a drop is the cell of the same row under a column of the same name. */
  lemma DroppedCellsStay(t: Table, names: seq<string>, i: nat, k: nat)
    requires t.Rectangular()
    requires i < |Drop(t, names).rows| && k < |Drop(t, names).columns|
    ensures exists p :: 0 <= p < |t.columns| && t.columns[p] == Drop(t, names).columns[k] &&
                        Drop(t, names).rows[i][k] == t.rows[i][p]
  {
    var kept := Kept(t.columns, names, 0);
    assert kept[k] in kept;
    var p := kept[k];
    assert Drop(t, names).rows[i][k] == t.rows[i][p];
  }

  /** Column c occurs exactly once in the header. */
  predicate OnlyOnce(columns: seq<string>, c: string)
  {
    c in columns && forall p, q :: 0 <= p < q < |columns| && columns[p] == c ==> columns[q] != c
  }

  /** Dropping other columns keeps the values of a column whose name occurs once. */
  lemma DropKeepsKeys(t: Table, names: seq<string>, key: string)
    requires t.Rectangular() && OnlyOnce(t.columns, key) && key !in names
    ensures key in Drop(t, names).columns
    ensures KeyColumn(Drop(t, names).rows, IndexOf(Drop(t, names).columns, key).value)
         == KeyColumn(t.rows, IndexOf(t.columns, key).value)
  {
    var d := Drop(t, names);
    var dk, tk := IndexOf(d.columns, key).value, IndexOf(t.columns, key).value;
    forall i | 0 <= i < |t.rows|
      ensures d.rows[i][dk] == t.rows[i][tk]
    {
      DroppedCellsStay(t, names, i, dk);
      var p :| 0 <= p < |t.columns| && t.columns[p] == key && d.rows[i][dk] == t.rows[i][p];
      assert p == tk;
    }
  }

  /** Names that are not columns of the table change nothing in `Kept`. */
  lemma {:induction false} KeptIgnoresAbsent(columns: seq<string>, names: seq<string>, extra: seq<string>, i: nat)
    requires i <= |columns|
    requires forall c :: c in extra ==> c !in columns
    ensures Kept(columns, names + extra, i) == Kept(columns, names, i)
    decreases |columns| - i
  {
    if i < |columns| {
      KeptIgnoresAbsent(columns, names, extra, i + 1);
      assert columns[i] in names + extra <==> columns[i] in names;
    }
  }

  /** Listing names the table does not have leaves the result of the drop unchanged. */
  lemma DropIgnoresAbsent(t: Table, names: seq<string>, extra: seq<string>)
    requires t.Rectangular()
    requires forall c :: c in extra ==> c !in t.columns
    ensures Drop(t, names + extra) == Drop(t, names)
  {
    KeptIgnoresAbsent(t.columns, names, extra, 0);
  }

  // ---------------------------------------------------------------------------
  // Inner merge on a key column (analyze_clusters.py:29)
  // ---------------------------------------------------------------------------

  /** `xs` without its element at position k. */
  function Without<T>(xs: seq<T>, k: nat): (r: seq<T>)
    requires k < |xs|
    ensures |r| == |xs| - 1
  {
    xs[..k] + xs[k + 1..]
  }

  /** The left header of a merge: names shared with the right table, apart from the key, get "_x". */
  function LeftHeader(lc: seq<string>, rc: seq<string>, key: string): seq<string>
  {
    seq(|lc|, j requires 0 <= j < |lc| => if lc[j] != key && lc[j] in rc then lc[j] + "_x" else lc[j])
  }

  /** The right header without the key column: names shared with the left table get "_y". */
  function RightHeader(rest: seq<string>, lc: seq<string>, key: string): seq<string>
  {
    seq(|rest|, j requires 0 <= j < |rest| => if rest[j] != key && rest[j] in lc then rest[j] + "_y" else rest[j])
  }

  /** Every row has a cell at position k. */
  predicate HasCell(rows: seq<seq<Value>>, k: nat)
  {
    forall i :: 0 <= i < |rows| ==> k < |rows[i]|
  }

  /** The key cell of every row. */
  function KeyColumn(rows: seq<seq<Value>>, k: nat): (r: seq<Value>)
    requires HasCell(rows, k)
    ensures |r| == |rows| && forall i :: 0 <= i < |rows| ==> r[i] == rows[i][k]
  {
    seq(|rows|, i requires 0 <= i < |rows| => rows[i][k])
  }

  /**
   * The merged rows of one left row `l`: `l` followed by the non-key cells of each
   * right row with the same key, in the right table's order.
   */
  function Matches(l: seq<Value>, lk: nat, rrows: seq<seq<Value>>, rk: nat): (r: seq<seq<Value>>)
    requires lk < |l| && HasCell(rrows, rk)
    ensures forall m :: m in r ==>
      exists j :: 0 <= j < |rrows| && rrows[j][rk] == l[lk] && m == l + Without(rrows[j], rk)
  {
    if rrows == [] then []
    else
      var rest := Matches(l, lk, rrows[1..], rk);
      assert forall m :: m in rest ==>
        exists j :: 1 <= j < |rrows| && rrows[j][rk] == l[lk] && m == l + Without(rrows[j], rk) by {
        forall m | m in rest
          ensures exists j :: 1 <= j < |rrows| && rrows[j][rk] == l[lk] && m == l + Without(rrows[j], rk)
        {
          var j :| 0 <= j < |rrows[1..]| && rrows[1..][j][rk] == l[lk] && m == l + Without(rrows[1..][j], rk);
          assert rrows[j + 1] == rrows[1..][j];
        }
      }
      (if rrows[0][rk] == l[lk] then [l + Without(rrows[0], rk)] else []) + rest
  }

  /** The rows of an inner merge: the matches of each left row, in the left table's order. */
  function MergeRows(lrows: seq<seq<Value>>, lk: nat, rrows: seq<seq<Value>>, rk: nat): (r: seq<seq<Value>>)
    requires HasCell(lrows, lk) && HasCell(rrows, rk)
    ensures forall m :: m in r ==>
      exists i, j :: 0 <= i < |lrows| && 0 <= j < |rrows| && rrows[j][rk] == lrows[i][lk]
        && m == lrows[i] + Without(rrows[j], rk)
  {
    if lrows == [] then []
    else
      var first, rest := Matches(lrows[0], lk, rrows, rk), MergeRows(lrows[1..], lk, rrows, rk);
      assert forall m :: m in rest ==>
        exists i, j :: 1 <= i < |lrows| && 0 <= j < |rrows| && rrows[j][rk] == lrows[i][lk]
          && m == lrows[i] + Without(rrows[j], rk) by {
        forall m | m in rest
          ensures exists i, j :: 1 <= i < |lrows| && 0 <= j < |rrows| &&
                    rrows[j][rk] == lrows[i][lk] && m == lrows[i] + Without(rrows[j], rk)
        {
          var i, j :| 0 <= i < |lrows[1..]| && 0 <= j < |rrows| && rrows[j][rk] == lrows[1..][i][lk]
            && m == lrows[1..][i] + Without(rrows[j], rk);
          assert lrows[i + 1] == lrows[1..][i];
        }
      }
      first + rest
  }

  /** Without shared names besides the key, merging adds no suffixes. */
  lemma HeaderWithoutOverlap(lc: seq<string>, rc: seq<string>, key: string, rk: nat)
    requires rk < |rc|
    ensures (forall c :: c in lc && c in rc ==> c == key) ==>
      LeftHeader(lc, rc, key) + RightHeader(Without(rc, rk), lc, key) == lc + Without(rc, rk)
  {
    var rest := Without(rc, rk);
    assert forall j :: 0 <= j < |rest| ==> rest[j] in rc;
  }

  /** Whether a name ends in one of the merge suffixes. */
  predicate Suffixed(c: string)
  {
    |c| >= 2 && (c[|c| - 2..] == "_x" || c[|c| - 2..] == "_y")
  }

  /** A right column other than the key, absent on the left, keeps its name in a merge. */
  lemma MergedHeaderHas(lc: seq<string>, rc: seq<string>, key: string, rk: nat, c: string)
    requires rk < |rc| && rc[rk] == key
    requires c in rc && c != key && c !in lc
    ensures c in LeftHeader(lc, rc, key) + RightHeader(Without(rc, rk), lc, key)
  {
    var rest := Without(rc, rk);
    var p :| 0 <= p < |rc| && rc[p] == c;
    var j := if p < rk then p else p - 1;
    assert rest[j] == c;
    assert RightHeader(rest, lc, key)[j] == c;
  }

  /** A name on neither side and without a suffix is not a column of a merge. */
  lemma MergedHeaderLacks(lc: seq<string>, rc: seq<string>, key: string, rk: nat, c: string)
    requires rk < |rc|
    requires c !in lc && c !in rc && !Suffixed(c)
    ensures c !in LeftHeader(lc, rc, key) + RightHeader(Without(rc, rk), lc, key)
  {
    var rest := Without(rc, rk);
    assert forall j :: 0 <= j < |rest| ==> rest[j] in rc;
    forall x: string
      ensures Suffixed(x + "_x") && Suffixed(x + "_y")
    {
      assert (x + "_x")[|x + "_x"| - 2..] == "_x";
      assert (x + "_y")[|x + "_y"| - 2..] == "_y";
    }
  }

  /** Every merged row is as wide as the two headers together. */
  lemma MergeRowsWidth(lrows: seq<seq<Value>>, lk: nat, lw: nat, rrows: seq<seq<Value>>, rk: nat, rw: nat)
    requires lk < lw && rk < rw
    requires forall i :: 0 <= i < |lrows| ==> |lrows[i]| == lw
    requires forall j :: 0 <= j < |rrows| ==> |rrows[j]| == rw
    ensures forall i :: 0 <= i < |MergeRows(lrows, lk, rrows, rk)| ==>
      |MergeRows(lrows, lk, rrows, rk)[i]| == lw + rw - 1
  {
    var rows := MergeRows(lrows, lk, rrows, rk);
    assert forall i :: 0 <= i < |rows| ==> rows[i] in rows;
  }

  /**
   * `left.merge(right, on=key)`: an inner join whose rows are MergeRows (each a left
   * row followed by the non-key cells of a right row with the same key). A key missing
   * from either header is a KeyError. With no shared names besides the key, the header
   * is the left header followed by the right one without the key.
   */
  function Merge(left: Table, right: Table, key: string): (r: Result<Table, Error>)
    requires left.Rectangular() && right.Rectangular()
    ensures r.Err? <==> key !in left.columns || key !in right.columns
    ensures r.Ok? ==> r.value.Rectangular() && |r.value.columns| == |left.columns| + |right.columns| - 1
    ensures r.Ok? && (forall c :: c in left.columns && c in right.columns ==> c == key) ==>
      r.value.columns == left.columns + Without(right.columns, IndexOf(right.columns, key).value)
  {
    match (IndexOf(left.columns, key), IndexOf(right.columns, key))
    case (Some(lk), Some(rk)) =>
      var header := LeftHeader(left.columns, right.columns, key)
                    + RightHeader(Without(right.columns, rk), left.columns, key);
      var rows := MergeRows(left.rows, lk, right.rows, rk);
      MergeRowsWidth(left.rows, lk, |left.columns|, right.rows, rk, |right.columns|);
      HeaderWithoutOverlap(left.columns, right.columns, key, rk);
      Ok(Table(header, rows))
    case _ => Err(NoSuchColumn(key))
  }

  /**
   * The rows of a merge are exactly the joined pairs: each row is a left row followed by
   * the non-key cells of a right row with the same key, and each such pair gives a row.
   */
  lemma MergedRowsComeFromBoth(left: Table, right: Table, key: string)
    requires left.Rectangular() && right.Rectangular()
    requires key in left.columns && key in right.columns
    ensures var lk, rk := IndexOf(left.columns, key).value, IndexOf(right.columns, key).value;
      forall m :: m in Merge(left, right, key).value.rows ==>
        exists i, j :: 0 <= i < |left.rows| && 0 <= j < |right.rows| && right.rows[j][rk] == left.rows[i][lk]
          && m == left.rows[i] + Without(right.rows[j], rk)
    ensures var lk, rk := IndexOf(left.columns, key).value, IndexOf(right.columns, key).value;
      forall i, j :: 0 <= i < |left.rows| && 0 <= j < |right.rows| && right.rows[j][rk] == left.rows[i][lk] ==>
        left.rows[i] + Without(right.rows[j], rk) in Merge(left, right, key).value.rows
  {
    var lk, rk := IndexOf(left.columns, key).value, IndexOf(right.columns, key).value;
    forall i, j | 0 <= i < |left.rows| && 0 <= j < |right.rows| && right.rows[j][rk] == left.rows[i][lk]
      ensures left.rows[i] + Without(right.rows[j], rk) in Merge(left, right, key).value.rows
    {
      MergeRowsComplete(left.rows, lk, right.rows, rk, i, j);
    }
  }

  /** No two right rows share a key. */
  predicate UniqueKeys(rows: seq<seq<Value>>, k: nat)
    requires HasCell(rows, k)
  {
    forall a, b :: 0 <= a < b < |rows| ==> rows[a][k] != rows[b][k]
  }

  /** A left row whose key no right row has is dropped by the inner merge. */
  lemma {:induction false} MatchesNone(l: seq<Value>, lk: nat, rrows: seq<seq<Value>>, rk: nat)
    requires lk < |l| && HasCell(rrows, rk)
    requires l[lk] !in KeyColumn(rrows, rk)
    ensures Matches(l, lk, rrows, rk) == []
  {
    if rrows != [] {
      assert KeyColumn(rrows[1..], rk) == KeyColumn(rrows, rk)[1..];
      MatchesNone(l, lk, rrows[1..], rk);
    }
  }

  /** A left row whose key exactly one right row has gives exactly one merged row. */
  lemma {:induction false} MatchesUnique(l: seq<Value>, lk: nat, rrows: seq<seq<Value>>, rk: nat, j: nat)
    requires lk < |l| && HasCell(rrows, rk) && UniqueKeys(rrows, rk)
    requires j < |rrows| && rrows[j][rk] == l[lk]
    ensures Matches(l, lk, rrows, rk) == [l + Without(rrows[j], rk)]
  {
    var tail := rrows[1..];
    if j == 0 {
      forall b | 0 <= b < |tail|
        ensures tail[b][rk] != l[lk]
      {
        assert tail[b] == rrows[b + 1];
      }
      MatchesNone(l, lk, tail, rk);
    } else {
      assert rrows[0][rk] != rrows[j][rk];
      assert tail[j - 1] == rrows[j];
      MatchesUnique(l, lk, tail, rk, j - 1);
    }
  }

  /** Every right row whose key equals the left row's yields a merged row, keys unique or not. */
  lemma {:induction false} MatchesComplete(l: seq<Value>, lk: nat, rrows: seq<seq<Value>>, rk: nat, j: nat)
    requires lk < |l| && HasCell(rrows, rk)
    requires j < |rrows| && rrows[j][rk] == l[lk]
    ensures l + Without(rrows[j], rk) in Matches(l, lk, rrows, rk)
    decreases j
  {
    if j > 0 {
      assert rrows[1..][j - 1] == rrows[j];
      MatchesComplete(l, lk, rrows[1..], rk, j - 1);
    }
  }

  /** Every (left row, right row) pair with equal keys yields a merged row. */
  lemma {:induction false} MergeRowsComplete(lrows: seq<seq<Value>>, lk: nat, rrows: seq<seq<Value>>, rk: nat,
                                             i: nat, j: nat)
    requires HasCell(lrows, lk) && HasCell(rrows, rk)
    requires i < |lrows| && j < |rrows| && rrows[j][rk] == lrows[i][lk]
    ensures lrows[i] + Without(rrows[j], rk) in MergeRows(lrows, lk, rrows, rk)
    decreases i
  {
    if i == 0 {
      MatchesComplete(lrows[0], lk, rrows, rk, j);
    } else {
      assert lrows[1..][i - 1] == lrows[i];
      MergeRowsComplete(lrows[1..], lk, rrows, rk, i - 1, j);
    }
  }

  /** The left rows whose key is among `keys`, in their order. */
  function Shared(lrows: seq<seq<Value>>, lk: nat, keys: seq<Value>): (r: seq<seq<Value>>)
    requires HasCell(lrows, lk)
    ensures |r| <= |lrows|
    ensures forall m :: m in r ==> m in lrows
  {
    if lrows == [] then []
    else (if lrows[0][lk] in keys then [lrows[0]] else []) + Shared(lrows[1..], lk, keys)
  }

  /** The first `w` cells of each row. */
  function LeftParts(rows: seq<seq<Value>>, w: nat): (r: seq<seq<Value>>)
    requires forall i :: 0 <= i < |rows| ==> w <= |rows[i]|
    ensures |r| == |rows|
  {
    seq(|rows|, i requires 0 <= i < |rows| => rows[i][..w])
  }

  lemma LeftPartsAppend(a: seq<seq<Value>>, b: seq<seq<Value>>, w: nat)
    requires forall i :: 0 <= i < |a| ==> w <= |a[i]|
    requires forall i :: 0 <= i < |b| ==> w <= |b[i]|
    ensures LeftParts(a + b, w) == LeftParts(a, w) + LeftParts(b, w)
  {
  }

  /** With unique right keys, the left part of a left row's matches is that row once, or nothing. */
  lemma LeftPartsOfMatches(l: seq<Value>, lk: nat, rrows: seq<seq<Value>>, rk: nat)
    requires lk < |l| && HasCell(rrows, rk) && UniqueKeys(rrows, rk)
    ensures forall m :: m in Matches(l, lk, rrows, rk) ==> |l| <= |m|
    ensures LeftParts(Matches(l, lk, rrows, rk), |l|) == if l[lk] in KeyColumn(rrows, rk) then [l] else []
  {
    if l[lk] in KeyColumn(rrows, rk) {
      var j :| 0 <= j < |rrows| && KeyColumn(rrows, rk)[j] == l[lk];
      MatchesUnique(l, lk, rrows, rk, j);
      assert (l + Without(rrows[j], rk))[..|l|] == l;
    } else {
      MatchesNone(l, lk, rrows, rk);
    }
  }

  /**
   * When the right keys are unique, the inner merge keeps, in their order, exactly the
   * left rows whose key occurs in the right table, each once.
   */
  lemma {:induction false} MergeKeepsSharedInOrder(lrows: seq<seq<Value>>, lk: nat, lw: nat, rrows: seq<seq<Value>>, rk: nat)
    requires lk < lw && forall i :: 0 <= i < |lrows| ==> |lrows[i]| == lw
    requires HasCell(rrows, rk) && UniqueKeys(rrows, rk)
    ensures forall m :: m in MergeRows(lrows, lk, rrows, rk) ==> lw <= |m|
    ensures LeftParts(MergeRows(lrows, lk, rrows, rk), lw) == Shared(lrows, lk, KeyColumn(rrows, rk))
  {
    if lrows != [] {
      var l := lrows[0];
      var first := Matches(l, lk, rrows, rk);
      var rest := MergeRows(lrows[1..], lk, rrows, rk);
      MergeKeepsSharedInOrder(lrows[1..], lk, lw, rrows, rk);
      LeftPartsOfMatches(l, lk, rrows, rk);
      assert MergeRows(lrows, lk, rrows, rk) == first + rest;
      assert forall i :: 0 <= i < |first| ==> first[i] in first;
      assert forall i :: 0 <= i < |rest| ==> rest[i] in rest;
      LeftPartsAppend(first, rest, lw);
    }
  }

  /**
   * When the right keys are unique and every left key occurs among them, the merge is
   * one-to-one: row i of the result is left row i followed by the non-key cells of the
   * right row with the same key.
   */
  lemma {:induction false} MergeOneToOne(lrows: seq<seq<Value>>, lk: nat, rrows: seq<seq<Value>>, rk: nat)
    requires HasCell(lrows, lk) && HasCell(rrows, rk) && UniqueKeys(rrows, rk)
    requires forall i :: 0 <= i < |lrows| ==> lrows[i][lk] in KeyColumn(rrows, rk)
    ensures |MergeRows(lrows, lk, rrows, rk)| == |lrows|
    ensures forall i :: 0 <= i < |lrows| ==>
      exists j :: 0 <= j < |rrows| && rrows[j][rk] == lrows[i][lk] &&
        MergeRows(lrows, lk, rrows, rk)[i] == lrows[i] + Without(rrows[j], rk)
  {
    if lrows != [] {
      var l := lrows[0];
      var j :| 0 <= j < |rrows| && KeyColumn(rrows, rk)[j] == l[lk];
      MatchesUnique(l, lk, rrows, rk, j);
      MergeOneToOne(lrows[1..], lk, rrows, rk);
      var rows := MergeRows(lrows, lk, rrows, rk);
      var rest := MergeRows(lrows[1..], lk, rrows, rk);
      assert rows == [l + Without(rrows[j], rk)] + rest;
      forall i | 1 <= i < |lrows|
        ensures exists j :: 0 <= j < |rrows| && rrows[j][rk] == lrows[i][lk] && rows[i] == lrows[i] + Without(rrows[j], rk)
      {
        assert lrows[1..][i - 1] == lrows[i] && rows[i] == rest[i - 1];
      }
    }
  }

  // ---------------------------------------------------------------------------
  // Codes to descriptions (analyze_clusters.py:31-32)
  // ---------------------------------------------------------------------------

  /**
   * `df.c = df.c.map(d)`: every cell of column c becomes the description d gives its
   * code, or a missing value when d has none; the header and the other cells stay. A
   * table without column c is an AttributeError.
   */
  function MapColumn(t: Table, c: string, d: map<string, string>): (r: Result<Table, Error>)
    requires t.Rectangular()
    ensures r.Err? <==> c !in t.columns
    ensures r.Ok? ==> r.value.Rectangular() && r.value.columns == t.columns && |r.value.rows| == |t.rows|
    ensures r.Ok? ==> forall i, k :: 0 <= i < |t.rows| && 0 <= k < |t.columns| && t.columns[k] != c ==>
      r.value.rows[i][k] == t.rows[i][k]
    ensures r.Ok? ==> forall i, k :: 0 <= i < |t.rows| && 0 <= k < |t.columns| && t.columns[k] == c ==>
      r.value.rows[i][k] == Describe(t.rows[i][k], d)
  {
    if c !in t.columns then Err(NoSuchColumn(c))
    else
      var cell := (i: nat, k: nat) requires i < |t.rows| && k < |t.columns| =>
        if t.columns[k] == c then Describe(t.rows[i][k], d) else t.rows[i][k];
      Ok(Table(t.columns, seq(|t.rows|, i requires 0 <= i < |t.rows| =>
        seq(|t.columns|, k requires 0 <= k < |t.columns| => cell(i, k)))))
  }

  /**
   * Mapping column c with the dictionary of a metadata table: a cell becomes missing
   * exactly when its code is not in the table, and otherwise becomes the description
   * of the code's last row.
   */
  lemma MapColumnWithLookup(t: Table, c: string, entries: seq<(string, string)>, i: nat, k: nat)
    requires t.Rectangular() && i < |t.rows| && k < |t.columns| && t.columns[k] == c
    ensures var r := MapColumn(t, c, BuildLookup(entries)).value;
      && (r.rows[i][k].Missing? <==> !(t.rows[i][k].Str? && exists e :: 0 <= e < |entries| && entries[e].0 == t.rows[i][k].s))
      && (forall e :: 0 <= e < |entries| && t.rows[i][k] == Str(entries[e].0) && LastOf(entries, e) ==>
            r.rows[i][k] == Str(entries[e].1))
  {
    DescribeWithLookup(entries, t.rows[i][k]);
  }
}
