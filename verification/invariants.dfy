/** What the table operations preserve and undo: the table invariant
    (`Valid`), the row count, and the round trips between the structural
    operations of `ColMan`. */
module TableInvariants {
  import opened Seqs
  import opened CsvTable
  import opened BasicCsv
  import opened ColMan

  /** On a valid table every search runs without a KeyError, and it finds
      a row exactly when some row holds the value. */
  lemma SearchColumnOnValid(t: Table, col: string, value: string)
    requires Valid(t)
    ensures SearchColumn(t, col, value).Ok?
    ensures col in t.fields ==>
              (SearchColumn(t, col, value).value.Found?
               <==> exists i :: 0 <= i < |t.rows| && t.rows[i][col] == value)
  {
    var r := SearchColumn(t, col, value);
    if col in t.fields && r.Ok? && r.value.NotFound? {
      assert ClearBefore(t.rows, col, value, |t.rows|);
    }
  }

  lemma AddColumnKeepsValid(t: Table, col: string, value: string)
    requires Valid(t)
    ensures Valid(AddColumn(t, col, value).table)
  {
    var t' := AddColumn(t, col, value).table;
    assert FieldSet(t'.fields) == FieldSet(t.fields) + {col} by {
      if col !in t.fields {
        assert t'.fields == t.fields + [col];
      }
    }
    forall i | 0 <= i < |t'.rows|
      ensures t'.rows[i].Keys == FieldSet(t'.fields)
    {
      assert t'.rows[i].Keys == t.rows[i].Keys + {col};
    }
  }

  /** Adding the same column twice leaves one column, with every row reset
      to the value once more: an overwrite, not a second column. */
  lemma AddColumnTwice(t: Table, col: string, value: string)
    ensures var once := AddColumn(t, col, value).table;
            AddColumn(once, col, value) == AddColumn(t, col, value)
  {
    var once := AddColumn(t, col, value).table;
    var twice := AddColumn(once, col, value).table;
    assert twice.fields == once.fields;
    assert |twice.rows| == |once.rows|;
    forall i | 0 <= i < |twice.rows|
      ensures twice.rows[i] == once.rows[i]
    {
      assert twice.rows[i] == t.rows[i][col := value][col := value];
    }
    assert twice.rows == once.rows;
    assert twice == once;
  }

  lemma AddColumnPositionKeepsValid(t: Table, col: string, position: int, value: string)
    requires Valid(t)
    requires 0 <= position <= |t.fields| - (if col in t.fields then 1 else 0)
    ensures Valid(AddColumnPosition(t, col, position, value).table)
    ensures FieldSet(AddColumnPosition(t, col, position, value).table.fields) == FieldSet(t.fields) + {col}
  {
    var t' := AddColumnPosition(t, col, position, value).table;
    var rest := RemoveFirst(t.fields, col);
    RemoveFirstNoDup(t.fields, col);
    InsertAtNoDup(rest, position, col);
    assert t'.fields == InsertAt(rest, position, col);
    assert FieldSet(t'.fields) == FieldSet(t.fields) + {col};
    forall i | 0 <= i < |t'.rows|
      ensures t'.rows[i].Keys == FieldSet(t'.fields)
    {
      if col !in t.fields {
        assert t'.rows[i].Keys == t.rows[i].Keys + {col};
      }
    }
  }

  lemma RmColumnKeepsValid(t: Table, col: string)
    requires Valid(t)
    ensures Valid(RmColumn(t, col).table)
  {
    var t' := RmColumn(t, col).table;
    if col in t.fields {
      RemoveFirstNoDup(t.fields, col);
      forall i | 0 <= i < |t'.rows|
        ensures t'.rows[i].Keys == FieldSet(t'.fields)
      {
        assert t'.rows[i].Keys == t.rows[i].Keys - {col};
      }
    }
  }

  /** Removing a column just added to a valid table gives the table back. */
  lemma AddThenRmColumn(t: Table, col: string, value: string)
    requires Valid(t) && col !in t.fields
    ensures RmColumn(AddColumn(t, col, value).table, col) == Done(t, Some(t), true)
  {
    var added := AddColumn(t, col, value).table;
    var t' := RmColumn(added, col).table;
    assert added.fields == t.fields + [col];
    var i := IndexOf(added.fields, col);
    assert i == |t.fields|;
    assert t'.fields == t.fields;
    assert |t'.rows| == |t.rows|;
    forall k | 0 <= k < |t.rows|
      ensures t'.rows[k] == t.rows[k]
    {
      assert col !in t.rows[k];
      assert t'.rows[k] == t.rows[k][col := value] - {col};
    }
    assert t'.rows == t.rows;
    assert t' == t;
  }

  lemma RenameColumnKeepsValid(t: Table, oldName: string, newName: string)
    requires Valid(t) && oldName in t.fields
    requires newName !in t.fields || newName == oldName
    ensures RenameColumn(t, oldName, newName).Done?
    ensures Valid(RenameColumn(t, oldName, newName).table)
  {
    var t' := RenameColumn(t, oldName, newName).table;
    var idx := IndexOf(t.fields, oldName);
    assert t'.fields == t.fields[idx := newName];
    ReplaceNoDup(t.fields, idx, newName);
    forall i | 0 <= i < |t'.rows|
      ensures t'.rows[i].Keys == FieldSet(t'.fields)
    {
      assert t'.rows[i] == RenameKey(t.rows[i], oldName, newName);
      RenameKeyKeys(t.rows[i], oldName, newName);
    }
  }

  /** Renaming a column to a fresh name and back gives the table back. */
  lemma RenameRoundTrip(t: Table, oldName: string, newName: string)
    requires Valid(t) && oldName in t.fields && newName !in t.fields
    ensures var once := RenameColumn(t, oldName, newName).table;
            RenameColumn(once, newName, oldName).table == t
  {
    RenameColumnKeepsValid(t, oldName, newName);
    var once := RenameColumn(t, oldName, newName).table;
    var idx := IndexOf(t.fields, oldName);
    assert once.fields == t.fields[idx := newName];
    IndexOfReplaced(t.fields, idx, newName);
    var back := RenameColumn(once, newName, oldName).table;
    assert back.fields == t.fields[idx := newName][idx := oldName];
    assert back.fields == t.fields;
    assert |back.rows| == |t.rows|;
    forall i | 0 <= i < |t.rows|
      ensures back.rows[i] == t.rows[i]
    {
      assert newName !in t.rows[i];
      RenameKeyBack(t.rows[i], oldName, newName);
      assert once.rows[i] == RenameKey(t.rows[i], oldName, newName);
      assert back.rows[i] == RenameKey(once.rows[i], newName, oldName);
    }
    assert back.rows == t.rows;
  }

  lemma ValueUpdateKeepsValid(t: Table, targetName: string, targetColumn: string, newValue: string,
                              rowIdentifier: string)
    requires Valid(t) && rowIdentifier in t.fields
    ensures ValueUpdate(t, targetName, targetColumn, newValue, rowIdentifier).Done?
    ensures Valid(ValueUpdate(t, targetName, targetColumn, newValue, rowIdentifier).table)
  {
    var r := ValueUpdate(t, targetName, targetColumn, newValue, rowIdentifier);
    if targetColumn in t.fields {
      forall i | 0 <= i < |t.rows|
        ensures r.table.rows[i].Keys == FieldSet(t.fields)
      {
        if t.rows[i][rowIdentifier] == targetName {
          assert r.table.rows[i].Keys == t.rows[i].Keys + {targetColumn};
        }
      }
    }
  }

  /** After a successful `value_update`, searching by the identifier finds
      a row carrying the new value; after an unsuccessful one the table is
      unchanged. */
  lemma ValueUpdateThenSearch(t: Table, targetName: string, targetColumn: string, newValue: string,
                              rowIdentifier: string)
    requires Valid(t) && targetColumn in t.fields && rowIdentifier in t.fields
    requires rowIdentifier != targetColumn
    ensures var r := ValueUpdate(t, targetName, targetColumn, newValue, rowIdentifier);
            && r.Done?
            && (r.value <==> SearchColumn(t, rowIdentifier, targetName) != Ok(NotFound))
            && (!r.value ==> r.table == t)
            && (r.value ==>
                  var s := SearchColumn(r.table, rowIdentifier, targetName);
                  s.Ok? && s.value.Found? && targetColumn in s.value.row && s.value.row[targetColumn] == newValue)
  {
    var r := ValueUpdate(t, targetName, targetColumn, newValue, rowIdentifier);
    ValueUpdateKeepsValid(t, targetName, targetColumn, newValue, rowIdentifier);
    SearchColumnOnValid(t, rowIdentifier, targetName);
    if r.value {
      UpdatedRowIsFound(t, targetName, targetColumn, newValue, rowIdentifier);
    } else {
      assert r.table.rows == t.rows;
    }
  }

  /** The successful half of `ValueUpdateThenSearch`: the first row the
      search returns is an updated one. */
  lemma UpdatedRowIsFound(t: Table, targetName: string, targetColumn: string, newValue: string,
                          rowIdentifier: string)
    requires Valid(t) && targetColumn in t.fields && rowIdentifier in t.fields
    requires rowIdentifier != targetColumn
    requires ValueUpdate(t, targetName, targetColumn, newValue, rowIdentifier).value
    ensures var s := SearchColumn(ValueUpdate(t, targetName, targetColumn, newValue, rowIdentifier).table,
                                  rowIdentifier, targetName);
            s.Ok? && s.value.Found? && targetColumn in s.value.row && s.value.row[targetColumn] == newValue
  {
    var u := ValueUpdate(t, targetName, targetColumn, newValue, rowIdentifier).table;
    ValueUpdateKeepsValid(t, targetName, targetColumn, newValue, rowIdentifier);
    var j :| 0 <= j < |t.rows| && t.rows[j][rowIdentifier] == targetName;
    assert u.rows[j][rowIdentifier] == targetName;
    SearchColumnOnValid(u, rowIdentifier, targetName);
    var s := SearchColumn(u, rowIdentifier, targetName);
    var i :| 0 <= i < |u.rows| && ClearBefore(u.rows, rowIdentifier, targetName, i)
             && u.rows[i][rowIdentifier] == targetName && s.value.row == u.rows[i];
    assert t.rows[i][rowIdentifier] == targetName;
  }

  /** After `del_data` the handler no longer holds a row with the deleted
      value: searching for it finds nothing. */
  lemma DelDataThenSearch(t: Table, disk: Disk, delValue: string, key: string)
    requires disk.Present? && HasColumn(disk.rows, key)
    requires key in LoadedFields(t, disk.header)
    ensures var r := DelData(t, disk, delValue, key);
            r.Done? && SearchColumn(r.table, key, delValue) == Ok(NotFound)
  {
    var r := DelData(t, disk, delValue, key);
    assert forall j :: 0 <= j < |r.table.rows| ==> r.table.rows[j] in r.table.rows;
    assert ClearBefore(r.table.rows, key, delValue, |r.table.rows|);
  }

  /** `count_row` after each operation: only `del_data` changes it; the
      structural operations, the updates and the sort leave it alone. */
  lemma CountRowTracksOps(t: Table, disk: Disk, col: string, other: string, a: string, b: string,
                          position: int, reverse: bool)
    requires 0 <= position <= |t.fields| - (if col in t.fields then 1 else 0)
    ensures CountRow(SortBy(t, disk, col, reverse).table) == CountRow(t)
    ensures CountRow(UpdateValue(t, disk, col, a, b).table) == CountRow(t)
    ensures CountRow(ValueUpdate(t, a, col, b, other).table) == CountRow(t)
    ensures CountRow(AddColumn(t, col, a).table) == CountRow(t)
    ensures CountRow(AddColumnPosition(t, col, position, a).table) == CountRow(t)
    ensures CountRow(RmColumn(t, col).table) == CountRow(t)
    ensures CountRow(RenameColumn(t, col, other).table) == CountRow(t)
    ensures disk.Present? && HasColumn(disk.rows, col) ==>
              CountRow(DelData(t, disk, a, col).table) == |disk.rows| - |Matching(disk.rows, col, a)|
  {
  }
}
