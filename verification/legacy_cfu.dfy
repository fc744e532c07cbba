/** The older copy of the library (project_using_cfu/cfu.py). Every
    operation not defined here is the same code as in cfu/cfu.py and is
    modelled once, by `BasicCsv` and `ColMan`; this module holds the two
    operations whose code differs. */
module LegacyCfu {
  import opened CsvTable
  import BasicCsv
  import ColMan

  /** `del_data` of the older copy: the filtered rows are saved, but
      `self.data` is never reassigned, so the handler keeps every row. */
  function DelData(t: Table, disk: Disk, delValue: string, key: string): (r: Outcome<()>)
    ensures disk.Missing? ==> r == Raised(t, FileNotFound)
    ensures disk.Present? ==> r.table == Table(LoadedFields(t, disk.header), t.rows)
    ensures disk.Present? ==> (r.Raised? <==> !HasColumn(disk.rows, key))
    ensures disk.Present? && r.Raised? ==> r.error == KeyError(key)
    ensures r.Done? ==>
              && r.written.Some? && r.written.value.fields == r.table.fields
              && (forall row :: row in r.written.value.rows ==> row in disk.rows && key in row && row[key] != delValue)
              && (forall row :: row in disk.rows && key in row && row[key] != delValue ==> row in r.written.value.rows)
    ensures r.Done? ==>
              && BasicCsv.DelData(t, disk, delValue, key).Done?
              && r.written == BasicCsv.DelData(t, disk, delValue, key).written
  {
    if disk.Missing? then Raised(t, FileNotFound)
    else
      var fields := LoadedFields(t, disk.header);
      if FirstMissing(disk.rows, key) < |disk.rows| then Raised(Table(fields, t.rows), KeyError(key))
      else
        SplitByValue(disk.rows, key, delValue);
        Done(Table(fields, t.rows), Some(Table(fields, Others(disk.rows, key, delValue))), ())
  }

  /** `value_update` of the older copy. Its identifier parameter is named
      `row` and is shadowed by the loop variable, so the loop evaluates
      `row[row]`, a dict used as a dict key, which raises TypeError on the
      first row. Only a table with no rows gets through the loop. */
  function ValueUpdate(t: Table, targetName: string, targetColumn: string, newValue: string,
                       row: string): (r: Outcome<bool>)
    ensures r.table == t
    ensures r.Raised? <==> targetColumn in t.fields && |t.rows| > 0
    ensures r.Raised? ==> r.error == TypeError
    ensures r.Done? ==> r.written == None && !r.value
  {
    if targetColumn !in t.fields then Done(t, None, false)
    else if |t.rows| == 0 then Done(t, None, false)
    else Raised(t, TypeError)
  }

  /** The stale rows: whenever the older `del_data` removes a row from the
      file, the handler still holds that row and `count_row` still counts
      it, while the corrected version's handler agrees with the file. */
  lemma DelDataLeavesRowsStale(t: Table, disk: Disk, delValue: string, key: string)
    requires disk.Present? && HasColumn(disk.rows, key) && t.rows == disk.rows
    requires Matching(disk.rows, key, delValue) != []
    ensures var legacy := DelData(t, disk, delValue, key);
            var fixed := BasicCsv.DelData(t, disk, delValue, key);
            && legacy.Done? && fixed.Done?
            && legacy.written == fixed.written
            && BasicCsv.CountRow(legacy.table) == |disk.rows|
            && BasicCsv.CountRow(fixed.table) < |disk.rows|
            && (exists i :: 0 <= i < |legacy.table.rows| && legacy.table.rows[i][key] == delValue)
            && fixed.table == fixed.written.value
  {
    var m := Matching(disk.rows, key, delValue);
    SplitByValue(disk.rows, key, delValue);
    assert m[0] in m;
  }

  /** The shadowed identifier: on any table with rows and a known target
      column the older `value_update` raises, even where the corrected
      version finds the row and reports the update. */
  lemma ValueUpdateAlwaysRaises(t: Table, targetName: string, targetColumn: string, newValue: string,
                                rowIdentifier: string)
    requires targetColumn in t.fields && HasColumn(t.rows, rowIdentifier)
    requires exists i :: 0 <= i < |t.rows| && t.rows[i][rowIdentifier] == targetName
    ensures ValueUpdate(t, targetName, targetColumn, newValue, rowIdentifier) == Raised(t, TypeError)
    ensures var fixed := ColMan.ValueUpdate(t, targetName, targetColumn, newValue, rowIdentifier);
            fixed.Done? && fixed.value && fixed.written == Some(fixed.table)
  {
  }
}
