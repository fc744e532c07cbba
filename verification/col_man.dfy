/** `ColMan` (cfu/cfu.py): operations that change the shape of the table
    (add, move, remove and rename a column) and the identifier-based cell
    update. They work on the handler's rows in place and save the whole
    table; none of them reloads the file. */
module ColMan {
  import opened Seqs
  import opened CsvTable
  import BasicCsv

  /** Every row gets `col := v`. */
  function SetAll(rows: seq<Row>, col: string, v: string): seq<Row>
  {
    seq(|rows|, i requires 0 <= i < |rows| => rows[i][col := v])
  }

  /** `row.pop(col, None)` on every row. */
  function DropAll(rows: seq<Row>, col: string): seq<Row>
  {
    seq(|rows|, i requires 0 <= i < |rows| => rows[i] - {col})
  }

  /** `row[new_name] = row.pop(old_name)`: the pop happens first, so renaming a
      column to itself leaves the row as it was. */
  function RenameKey(row: Row, oldName: string, newName: string): Row
    requires oldName in row
  {
    (row - {oldName})[newName := row[oldName]]
  }

  lemma RenameKeyKeys(row: Row, oldName: string, newName: string)
    requires oldName in row
    ensures RenameKey(row, oldName, newName).Keys == row.Keys - {oldName} + {newName}
  {
  }

  /** Renaming a key to a fresh name and back gives the row back. */
  lemma RenameKeyBack(row: Row, oldName: string, newName: string)
    requires oldName in row && newName !in row
    ensures newName in RenameKey(row, oldName, newName)
    ensures RenameKey(RenameKey(row, oldName, newName), newName, oldName) == row
  {
    var back := RenameKey(RenameKey(row, oldName, newName), newName, oldName);
    assert back.Keys == row.Keys;
  }

  function RenameAll(rows: seq<Row>, oldName: string, newName: string): seq<Row>
    requires HasColumn(rows, oldName)
  {
    seq(|rows|, i requires 0 <= i < |rows| => RenameKey(rows[i], oldName, newName))
  }

  /** `add_column(col_name, value)`. */
  function AddColumn(t: Table, col: string, value: string): (r: Outcome<()>)
    ensures r.Done? && r.written == Some(r.table)
    ensures col in r.table.fields
    ensures |r.table.fields| == |t.fields| + (if col in t.fields then 0 else 1)
    ensures r.table.fields[..|t.fields|] == t.fields
    ensures NoDup(t.fields) ==> NoDup(r.table.fields)
    ensures |r.table.rows| == |t.rows|
    ensures forall i :: 0 <= i < |t.rows| ==>
              && col in r.table.rows[i] && r.table.rows[i][col] == value
              && SameElsewhere(t.rows[i], r.table.rows[i], col)
  {
    var fields := if col in t.fields then t.fields else t.fields + [col];
    assert fields[..|t.fields|] == t.fields;
    var t' := Table(fields, SetAll(t.rows, col, value));
    Done(t', Some(t'), ())
  }

  /** `add_column_position(col_name, position, value)`, for a position that
      `list.insert` does not have to clamp. */
  function AddColumnPosition(t: Table, col: string, position: int, value: string): (r: Outcome<()>)
    requires 0 <= position <= |t.fields| - (if col in t.fields then 1 else 0)
    ensures r.Done? && r.written == Some(r.table)
    ensures |r.table.fields| == |RemoveFirst(t.fields, col)| + 1
    ensures r.table.fields[position] == col
    ensures r.table.fields[..position] + r.table.fields[position + 1..] == RemoveFirst(t.fields, col)
    ensures col in t.fields ==> r.table.rows == t.rows
    ensures col !in t.fields ==>
              && |r.table.rows| == |t.rows|
              && forall i :: 0 <= i < |t.rows| ==>
                   && col in r.table.rows[i] && r.table.rows[i][col] == value
                   && SameElsewhere(t.rows[i], r.table.rows[i], col)
  {
    var rows := if col !in t.fields then SetAll(t.rows, col, value) else t.rows;
    var rest := RemoveFirst(t.fields, col);
    assert |rest| == |t.fields| - (if col in t.fields then 1 else 0);
    var fields := InsertAt(rest, position, col);
    var t' := Table(fields, rows);
    Done(t', Some(t'), ())
  }

  /** `value_update(target_name, target_column, new_value, row_identifier)`.
      Rows are changed in place while the loop runs, so a row lacking the
      identifier raises after the earlier rows were already updated. */
  function ValueUpdate(t: Table, targetName: string, targetColumn: string, newValue: string,
                       rowIdentifier: string): (r: Outcome<bool>)
    ensures targetColumn !in t.fields ==> r == Done(t, None, false)
    ensures targetColumn in t.fields ==> (r.Raised? <==> !HasColumn(t.rows, rowIdentifier))
    ensures r.table.fields == t.fields && |r.table.rows| == |t.rows|
    ensures r.Raised? ==>
              && r.error == KeyError(rowIdentifier)
              && exists k :: 0 <= k < |t.rows| && rowIdentifier !in t.rows[k] && HasColumn(t.rows[..k], rowIdentifier)
                             && r.table.rows[k..] == t.rows[k..]
                             && r.table.rows[..k] == Rewrite(t.rows[..k], rowIdentifier, targetName, targetColumn, newValue)
    ensures r.Done? && targetColumn in t.fields ==>
              && (r.value <==> exists i :: 0 <= i < |t.rows| && t.rows[i][rowIdentifier] == targetName)
              && r.written == (if r.value then Some(r.table) else None)
              && forall i :: 0 <= i < |t.rows| ==>
                   if t.rows[i][rowIdentifier] == targetName then
                     && targetColumn in r.table.rows[i] && r.table.rows[i][targetColumn] == newValue
                     && SameElsewhere(t.rows[i], r.table.rows[i], targetColumn)
                   else r.table.rows[i] == t.rows[i]
  {
    if targetColumn !in t.fields then Done(t, None, false)
    else
      var k := FirstMissing(t.rows, rowIdentifier);
      if k < |t.rows| then
        var rows := Rewrite(t.rows[..k], rowIdentifier, targetName, targetColumn, newValue) + t.rows[k..];
        assert rows[..k] == Rewrite(t.rows[..k], rowIdentifier, targetName, targetColumn, newValue);
        Raised(Table(t.fields, rows), KeyError(rowIdentifier))
      else
        assert t.rows[..k] == t.rows;
        var updated := BasicCsv.Scan(t.rows, rowIdentifier, targetName) < |t.rows|;
        var t' := Table(t.fields, Rewrite(t.rows, rowIdentifier, targetName, targetColumn, newValue));
        Done(t', if updated then Some(t') else None, updated)
  }

  /** `rm_column(col_name)`. */
  function RmColumn(t: Table, col: string): (r: Outcome<bool>)
    ensures r.Done?
    ensures r.value <==> col in t.fields
    ensures !r.value ==> r.table == t && r.written == None
    ensures r.value ==>
              && r.written == Some(r.table)
              && r.table.fields == RemoveFirst(t.fields, col)
              && |r.table.fields| == |t.fields| - 1
              && (NoDup(t.fields) ==> col !in r.table.fields && FieldSet(r.table.fields) == FieldSet(t.fields) - {col})
              && |r.table.rows| == |t.rows|
              && forall i :: 0 <= i < |t.rows| ==>
                   col !in r.table.rows[i] && SameElsewhere(t.rows[i], r.table.rows[i], col)
  {
    if col !in t.fields then Done(t, None, false)
    else
      var t' := Table(RemoveFirst(t.fields, col), DropAll(t.rows, col));
      RemoveFirstNoDup(t.fields, col);
      Done(t', Some(t'), true)
  }

  /** `rename_column(old_name, new_name)`. A row lacking `old_name` raises
      from `row.pop` after the earlier rows were already renamed, and
      before the header is touched. */
  function RenameColumn(t: Table, oldName: string, newName: string): (r: Outcome<bool>)
    ensures oldName !in t.fields ==> r == Done(t, None, false)
    ensures oldName in t.fields ==> (r.Raised? <==> !HasColumn(t.rows, oldName))
    ensures |r.table.rows| == |t.rows|
    ensures r.Raised? ==>
              && r.error == KeyError(oldName) && r.table.fields == t.fields
              && exists k :: 0 <= k < |t.rows| && oldName !in t.rows[k] && HasColumn(t.rows[..k], oldName)
                             && r.table.rows[k..] == t.rows[k..]
                             && r.table.rows[..k] == RenameAll(t.rows[..k], oldName, newName)
    ensures r.Done? && oldName in t.fields ==>
              && r.value && r.written == Some(r.table)
              && |r.table.fields| == |t.fields|
              && (exists k :: 0 <= k < |t.fields| && t.fields[k] == oldName && oldName !in t.fields[..k]
                             && r.table.fields == t.fields[k := newName])
              && forall i :: 0 <= i < |t.rows| ==>
                   && newName in r.table.rows[i] && r.table.rows[i][newName] == t.rows[i][oldName]
                   && (oldName != newName ==> oldName !in r.table.rows[i])
                   && forall c :: c != oldName && c != newName ==>
                        (c in t.rows[i] <==> c in r.table.rows[i])
                        && (c in t.rows[i] ==> r.table.rows[i][c] == t.rows[i][c])
  {
    if oldName !in t.fields then Done(t, None, false)
    else
      var k := FirstMissing(t.rows, oldName);
      if k < |t.rows| then
        var rows := RenameAll(t.rows[..k], oldName, newName) + t.rows[k..];
        assert rows[..k] == RenameAll(t.rows[..k], oldName, newName);
        Raised(Table(t.fields, rows), KeyError(oldName))
      else
        assert t.rows[..k] == t.rows;
        var t' := Table(t.fields[IndexOf(t.fields, oldName) := newName], RenameAll(t.rows, oldName, newName));
        Done(t', Some(t'), true)
  }
}
