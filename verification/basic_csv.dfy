/** `BasicCsv` (cfu/cfu.py): row counting, search, sort, delete and value
    update. The operations that reload the file take its current state as
    a `Disk`; none of them reads or writes anything else. */
module BasicCsv {
  import opened Seqs
  import opened CsvTable
  import StableSort

  /** `count_row`: the number of rows held in memory, which after a
      reloading operation need not be the number of rows in the file. */
  function CountRow(t: Table): (n: nat)
    ensures n == |t.rows|
    ensures n == 0 <==> t.rows == []
  {
    |t.rows|
  }

  /** The three outcomes `search_column` distinguishes (Python `False`,
      `None` and the row itself). */
  datatype Search = InvalidColumn | NotFound | Found(row: Row)

  /** The rows before index `i` can be read in column `col` and none of
      them holds `value`. */
  predicate ClearBefore(rows: seq<Row>, col: string, value: string, i: nat)
    requires i <= |rows|
  {
    forall j :: 0 <= j < i ==> col in rows[j] && rows[j][col] != value
  }

  /** Where the search loop stops: the first row that lacks `col` (it
      raises there) or holds `value` (it returns there); `|rows|` when it
      runs to the end. */
  function Scan(rows: seq<Row>, col: string, value: string): (k: nat)
    ensures k <= |rows|
    ensures ClearBefore(rows, col, value, k)
    ensures k < |rows| ==> col !in rows[k] || rows[k][col] == value
  {
    if |rows| == 0 then 0
    else if col !in rows[0] || rows[0][col] == value then 0
    else 1 + Scan(rows[1..], col, value)
  }

  /** `search_column(col_name, value)`. */
  function SearchColumn(t: Table, col: string, value: string): (r: Result<Search>)
    ensures col !in t.fields <==> r == Ok(InvalidColumn)
    ensures r == Ok(NotFound) <==> col in t.fields && ClearBefore(t.rows, col, value, |t.rows|)
    ensures r.Ok? && r.value.Found? ==>
              exists i :: 0 <= i < |t.rows| && ClearBefore(t.rows, col, value, i)
                          && col in t.rows[i] && t.rows[i][col] == value && r.value.row == t.rows[i]
    ensures r.Err? ==>
              && r.error == KeyError(col) && col in t.fields
              && exists i :: 0 <= i < |t.rows| && ClearBefore(t.rows, col, value, i) && col !in t.rows[i]
  {
    if col !in t.fields then Ok(InvalidColumn)
    else
      var k := Scan(t.rows, col, value);
      if k == |t.rows| then Ok(NotFound)
      else if col !in t.rows[k] then Err(KeyError(col))
      else Ok(Found(t.rows[k]))
  }

  /** `sort_by(file_name, key, reverse)` with the text key. The handler's
      rows are untouched, but its header is replaced by the reloaded one. */
  function SortBy(t: Table, disk: Disk, key: string, reverse: bool): (r: Outcome<seq<Row>>)
    ensures disk.Missing? <==> r == Raised(t, FileNotFound)
    ensures disk.Present? ==> r.table == Table(LoadedFields(t, disk.header), t.rows)
    ensures disk.Present? && |disk.rows| == 0 ==> r.Done? && r.value == []
    ensures disk.Present? && |disk.rows| > 0 ==>
              (r.Raised? <==> !HasColumn(disk.rows, key)) && (r.Raised? ==> r.error == KeyError(key))
    ensures r.Done? ==> r.written == None && |r.value| == |disk.rows|
  {
    if disk.Missing? then Raised(t, FileNotFound)
    else
      var t' := Table(LoadedFields(t, disk.header), t.rows);
      if |disk.rows| == 0 then Done(t', None, [])
      else if key !in disk.rows[0] then Raised(t', KeyError(key))
      else if FirstMissing(disk.rows, key) < |disk.rows| then Raised(t', KeyError(key))
      else
        var sorted := StableSort.Sort(disk.rows, key, reverse);
        assert |multiset(sorted)| == |disk.rows|;
        Done(t', None, sorted)
  }

  /** A successful `sort_by` returns a rearrangement of the reloaded rows,
      in key order, with rows of equal key in their original order. */
  lemma SortByOrdersRows(t: Table, disk: Disk, key: string, reverse: bool)
    requires SortBy(t, disk, key, reverse).Done?
    ensures disk.Present? && HasColumn(disk.rows, key)
    ensures var out := SortBy(t, disk, key, reverse).value;
            && multiset(out) == multiset(disk.rows)
            && HasColumn(out, key)
            && StableSort.Sorted(out, key, reverse)
            && forall v :: Matching(out, key, v) == Matching(disk.rows, key, v)
  {
    if |disk.rows| > 0 {
      StableSort.SortSorted(disk.rows, key, reverse);
      forall v
        ensures Matching(StableSort.Sort(disk.rows, key, reverse), key, v) == Matching(disk.rows, key, v)
      {
        StableSort.SortStable(disk.rows, key, reverse, v);
      }
    }
  }

  /** `del_data(del_value, key, file_name)`; `delValue` is `str(del_value)`.
      The filtered rows are both saved and kept as the handler's rows. */
  function DelData(t: Table, disk: Disk, delValue: string, key: string): (r: Outcome<()>)
    ensures disk.Missing? ==> r == Raised(t, FileNotFound)
    ensures disk.Present? && !HasColumn(disk.rows, key) ==>
              r == Raised(Table(LoadedFields(t, disk.header), t.rows), KeyError(key))
    ensures disk.Present? && HasColumn(disk.rows, key) ==>
              && r.Done? && r.written == Some(r.table)
              && r.table.fields == LoadedFields(t, disk.header)
              && (forall row :: row in r.table.rows ==> row in disk.rows && key in row && row[key] != delValue)
              && (forall row :: row in disk.rows && key in row && row[key] != delValue ==> row in r.table.rows)
              && |r.table.rows| == |disk.rows| - |Matching(disk.rows, key, delValue)|
  {
    if disk.Missing? then Raised(t, FileNotFound)
    else
      var fields := LoadedFields(t, disk.header);
      if FirstMissing(disk.rows, key) < |disk.rows| then Raised(Table(fields, t.rows), KeyError(key))
      else
        SplitByValue(disk.rows, key, delValue);
        var kept := Table(fields, Others(disk.rows, key, delValue));
        Done(kept, Some(kept), ())
  }

  /** The rows `del_data` keeps are the non-matching rows in their original
      order: the filter of a concatenation is the concatenation of the
      filters, and kept and deleted rows together are the loaded rows. */
  lemma DelDataKeepsOrder(t: Table, disk: Disk, delValue: string, key: string, a: seq<Row>, b: seq<Row>)
    requires disk.Present? && disk.rows == a + b && HasColumn(disk.rows, key)
    ensures HasColumn(a, key) && HasColumn(b, key)
    ensures DelData(t, disk, delValue, key).table.rows == Others(a, key, delValue) + Others(b, key, delValue)
    ensures multiset(DelData(t, disk, delValue, key).table.rows) + multiset(Matching(disk.rows, key, delValue))
         == multiset(disk.rows)
  {
    assert forall i :: 0 <= i < |a| ==> a[i] == disk.rows[i];
    assert forall i :: 0 <= i < |b| ==> b[i] == disk.rows[|a| + i];
    SelectConcat(a, b, key, delValue);
    SplitByValue(disk.rows, key, delValue);
  }

  /** `update_value(column, old_value, new_value, file_name)`. The rewritten
      rows are only saved: the handler keeps its old rows. */
  function UpdateValue(t: Table, disk: Disk, column: string, oldValue: string, newValue: string): (r: Outcome<()>)
    ensures disk.Missing? ==> r == Raised(t, FileNotFound)
    ensures disk.Present? ==> r.table == Table(LoadedFields(t, disk.header), t.rows)
    ensures disk.Present? ==> (r.Raised? <==> !HasColumn(disk.rows, column))
    ensures disk.Present? && r.Raised? ==> r.error == KeyError(column)
    ensures r.Done? ==>
              && r.written.Some? && r.written.value.fields == r.table.fields
              && |r.written.value.rows| == |disk.rows|
              && forall i :: 0 <= i < |disk.rows| ==>
                   && SameElsewhere(disk.rows[i], r.written.value.rows[i], column)
                   && column in r.written.value.rows[i]
                   && r.written.value.rows[i][column]
                      == (if disk.rows[i][column] == oldValue then newValue else disk.rows[i][column])
  {
    if disk.Missing? then Raised(t, FileNotFound)
    else
      var fields := LoadedFields(t, disk.header);
      if FirstMissing(disk.rows, column) < |disk.rows| then Raised(Table(fields, t.rows), KeyError(column))
      else
        var rows := Rewrite(disk.rows, column, oldValue, column, newValue);
        Done(Table(fields, t.rows), Some(Table(fields, rows)), ())
  }

  /** Counting the cells of `column` after an update: every old value has
      become a new one, and no row was added or lost. */
  lemma {:induction false} RewriteCounts(rows: seq<Row>, column: string, oldValue: string, newValue: string)
    requires HasColumn(rows, column) && oldValue != newValue
    ensures HasColumn(Rewrite(rows, column, oldValue, column, newValue), column)
    ensures |Matching(Rewrite(rows, column, oldValue, column, newValue), column, newValue)|
         == |Matching(rows, column, oldValue)| + |Matching(rows, column, newValue)|
    ensures Matching(Rewrite(rows, column, oldValue, column, newValue), column, oldValue) == []
  {
    var out := Rewrite(rows, column, oldValue, column, newValue);
    if |rows| > 0 {
      assert out[1..] == Rewrite(rows[1..], column, oldValue, column, newValue);
      RewriteCounts(rows[1..], column, oldValue, newValue);
    }
  }

  /** `update_value` keeps the row count, turns every `oldValue` of the
      column into `newValue`, and saves even when nothing matched. */
  lemma UpdateValueCounts(t: Table, disk: Disk, column: string, oldValue: string, newValue: string)
    requires disk.Present? && HasColumn(disk.rows, column) && oldValue != newValue
    ensures var r := UpdateValue(t, disk, column, oldValue, newValue);
            && r.Done? && r.written.Some?
            && |r.written.value.rows| == |disk.rows|
            && HasColumn(r.written.value.rows, column)
            && |Matching(r.written.value.rows, column, newValue)|
               == |Matching(disk.rows, column, oldValue)| + |Matching(disk.rows, column, newValue)|
            && Matching(r.written.value.rows, column, oldValue) == []
            && (Matching(disk.rows, column, oldValue) == [] ==> r.written.value.rows == disk.rows)
  {
    RewriteCounts(disk.rows, column, oldValue, newValue);
    RewriteNoMatch(disk.rows, column, oldValue, newValue);
  }

  lemma {:induction false} RewriteNoMatch(rows: seq<Row>, column: string, oldValue: string, newValue: string)
    requires HasColumn(rows, column)
    ensures Matching(rows, column, oldValue) == [] ==> Rewrite(rows, column, oldValue, column, newValue) == rows
  {
    if |rows| > 0 {
      assert Rewrite(rows, column, oldValue, column, newValue)[1..] == Rewrite(rows[1..], column, oldValue, column, newValue);
      RewriteNoMatch(rows[1..], column, oldValue, newValue);
    }
  }

  /** The record `add_data` builds: each header column mapped to the
      answer given for it, a later duplicate column overwriting an earlier. */
  function NewRow(fields: seq<string>, answers: seq<string>): (row: Row)
    requires |answers| == |fields|
    ensures row.Keys == FieldSet(fields)
    ensures forall i :: 0 <= i < |fields| && fields[i] !in fields[i + 1..] ==> row[fields[i]] == answers[i]
  {
    if |fields| == 0 then map[]
    else
      var n := |fields| - 1;
      var prev := NewRow(fields[..n], answers[..n]);
      assert fields == fields[..n] + [fields[n]];
      LastOccurrenceInPrefix(fields, n);
      prev[fields[n] := answers[n]]
  }

  /** A column that does not occur again later in the header does not
      occur again later in any prefix either, and differs from the last
      column when it comes before it. */
  lemma LastOccurrenceInPrefix(fields: seq<string>, n: nat)
    requires n == |fields| - 1
    ensures forall i :: 0 <= i < n && fields[i] !in fields[i + 1..] ==>
              fields[..n][i] !in fields[..n][i + 1..] && fields[i] != fields[n]
  {
    forall i | 0 <= i < n && fields[i] !in fields[i + 1..]
      ensures fields[..n][i] !in fields[..n][i + 1..] && fields[i] != fields[n]
    {
      assert fields[..n][i + 1..] == fields[i + 1..n];
      assert fields[n] == fields[i + 1..][n - i - 1];
    }
  }

  /** `add_data` on the handler's rows, with the typed answers given in
      header order; the append to the file is not modelled. */
  function AddData(t: Table, answers: seq<string>): (t': Table)
    requires |answers| == |t.fields|
    ensures t'.fields == t.fields
    ensures |t'.rows| == |t.rows| + 1 && t'.rows[..|t.rows|] == t.rows
    ensures t'.rows[|t.rows|].Keys == FieldSet(t.fields)
    ensures forall i :: 0 <= i < |t.fields| && t.fields[i] !in t.fields[i + 1..] ==>
              t'.rows[|t.rows|][t.fields[i]] == answers[i]
    ensures Valid(t) ==> Valid(t')
  {
    Table(t.fields, t.rows + [NewRow(t.fields, answers)])
  }
}
