# CSV file utilities: the table core in Dafny

This project models the in-memory table logic of the `cfu` CSV utility
library. Two classes are covered. `BasicCsv` holds a header (`fields`) and
the loaded records (`data`) and offers `count_row`, `search_column`,
`sort_by`, `del_data`, `update_value` and the in-memory half of
`add_data`. `ColMan` adds the column operations `add_column`,
`add_column_position`, `value_update`, `rm_column` and `rename_column`.
The older copy of the library in `project_using_cfu/` is modelled only
where its code differs: `del_data` and `value_update`.

Every operation is a pure function. It takes the handler's state as a
`Table(fields, rows)`, where a row is a `map<string, string>`. It returns
an `Outcome`, which is one of two things:

- `Done(table, written, value)`: the handler's table afterwards, the
  table handed to `save_csv` if the operation saved, and the Python return
  value.
- `Raised(table, error)`: the handler's table at the moment a
  `FileNotFoundError`, `KeyError` or `TypeError` escaped.

`search_column` mutates nothing and returns a `Result` instead.

`sort_by`, `del_data` and `update_value` reload the file first. They take
its state as a `Disk`, which is either `Missing` or
`Present(header, rows)`. Reloading also replaces `self.fields` with a
non-empty header, and the model keeps that side effect.

A row that lacks a column it is indexed by raises `KeyError`. The model
covers these paths too. Where the loop mutates rows in place
(`value_update`, `rename_column`), the raised table carries the rows that
were already changed.

Modules:

- `Seqs`: the list helpers `index`, `remove` and `insert`, and the
  no-duplicates facts about them.
- `TextOrder`: Python's string `<`, which is lexicographic by code point.
- `CsvTable`: the state, `Valid`, and the row filters.
- `StableSort`: the sort used by `sort_by`.
- `BasicCsv` and `ColMan`: the operations.
- `TableInvariants`: what the operations preserve and undo.
- `LegacyCfu`: the two differing operations of the older copy.
- `Scenarios`: the unit tests' expectations on their four-row fixture, stated against the model.

Two places where the code and its prose disagree follow the code:

- `update_value` only saves the rewritten rows. Its docstring
  (cfu/cfu.py:209-211) says that `self.data` is updated as well, but the
  code never assigns it. `BasicCsv.UpdateValue` therefore keeps the
  handler's rows.
- `search_column` documents three return values (cfu/cfu.py:132-135):
  the row, `False` or `None`. But the loop indexes `row[col_name]`
  without a guard (cfu/cfu.py:141), so a row that lacks the column raises
  `KeyError`. `BasicCsv.SearchColumn` returns `Err(KeyError(col))` there.
  This cannot happen on a `Valid` table (`TableInvariants.SearchColumnOnValid`).

## Model

| member | source | states |
|---|---|---|
| BasicCsv.Scan | cfu/cfu.py:140-143 | the search loop stops at the first row that lacks the column or holds the value; every earlier row has the column with a different value |
| BasicCsv.SearchColumn | cfu/cfu.py:137-143 | three outcomes: `InvalidColumn` (Python `False`) exactly when the column is not in `fields`; `NotFound` (`None`) exactly when every row has the column and none holds the value; otherwise the lowest-index row holding the value, or a `KeyError` at the first row lacking the column |
| TableInvariants.SearchColumnOnValid | cfu/cfu.py:137-143 | on a valid table the search never raises, and for a known column it finds a row exactly when some row holds the value |
| BasicCsv.SortBy | cfu/cfu.py:162-178 | checks in source order: a missing file raises FileNotFoundError, then zero reloaded rows give `[]`, then a row lacking the key raises KeyError; the handler's rows are untouched, its header is replaced by the reloaded one, and nothing is saved |
| BasicCsv.SortByOrdersRows | cfu/cfu.py:175-178 | a successful sort returns a permutation of the reloaded rows, ordered by the key (descending when `reverse`), with rows of equal key in their original relative order |
| StableSort.Insert | cfu/cfu.py:178 | inserting one row adds exactly that row to the multiset of rows |
| StableSort.Sort | cfu/cfu.py:178 | the sorted rows are a permutation of the input |
| StableSort.InsertSorted | cfu/cfu.py:178 | inserting into sorted rows keeps them sorted |
| StableSort.SortSorted | cfu/cfu.py:178 | the sorted rows are in key order, descending when `reverse` |
| StableSort.InsertStable | cfu/cfu.py:178 | an insertion keeps the inserted row ahead of every equal-key row it started ahead of |
| StableSort.InsertStablePast | cfu/cfu.py:178 | when the inserted row moves past a row with a strictly earlier key, the rows holding any one value keep their order |
| StableSort.SortStable | cfu/cfu.py:178 | for every key value, the rows carrying it appear in the output in their input order |
| StableSort.BeforeIrreflexive | cfu/cfu.py:178 | no key sorts strictly before itself, in either direction |
| StableSort.NotBeforeTransitive | cfu/cfu.py:178 | "not strictly before" is transitive, so an ordered sequence is ordered pairwise |
| TextOrder.LessIrreflexive | cfu/cfu.py:178 | no string is less than itself under Python's string comparison |
| TextOrder.LessTransitive | cfu/cfu.py:178 | string comparison is transitive |
| TextOrder.LessTotal | cfu/cfu.py:178 | of two different strings, one is less than the other |
| TextOrder.LessAsymmetric | cfu/cfu.py:178 | two strings are never each less than the other |
| BasicCsv.DelData | cfu/cfu.py:196-205 | a missing file raises FileNotFoundError; a reloaded row lacking the key raises KeyError; otherwise the handler's new rows are exactly the reloaded rows whose key differs from the value, they are what is saved, and the count drops by the number of matching rows |
| BasicCsv.DelDataKeepsOrder | cfu/cfu.py:203 | the kept rows are the non-matching rows in their original order, and kept plus deleted rows make up the reloaded rows |
| CsvTable.SplitByValue | cfu/cfu.py:203 | the rows matching a value and the rows not matching it partition the input as multisets, with membership in each characterised |
| CsvTable.SelectConcat | cfu/cfu.py:203 | filtering a concatenation is concatenating the filtered parts |
| CsvTable.FirstMissing | cfu/cfu.py:319-320 | the first row that lacks a column, where an indexing loop raises KeyError; every earlier row has the column |
| BasicCsv.UpdateValue | cfu/cfu.py:225-236 | a missing file or a row lacking the column raises; otherwise the saved rows are the reloaded rows with the column's `old_value` cells set to `new_value` and every other cell unchanged, while the handler's rows are left as they were |
| BasicCsv.RewriteCounts | cfu/cfu.py:232-234 | after the rewrite no cell holds the old value, and the new value's count is the sum of both values' counts before |
| BasicCsv.UpdateValueCounts | cfu/cfu.py:225-236 | the update keeps the row count, turns every old value of the column into the new value, and saves the unchanged rows when nothing matched |
| BasicCsv.RewriteNoMatch | cfu/cfu.py:232-236 | with no matching row the rewritten rows equal the reloaded rows |
| BasicCsv.NewRow | cfu/cfu.py:101-104 | the new record is keyed by exactly the header columns; each column holds the answer given at its last occurrence in the header, so a repeated column keeps the later answer |
| BasicCsv.AddData | cfu/cfu.py:101-106 | the new record is appended after the existing rows with each column holding the answer at its last header occurrence, the header is unchanged, and a valid table stays valid |
| ColMan.AddColumn | cfu/cfu.py:265-271 | the column is appended only if absent, so the header gains no duplicate; every row's cell for it becomes the value, overwriting, and every other cell is unchanged; the table is saved |
| TableInvariants.AddColumnKeepsValid | cfu/cfu.py:265-271 | `add_column` preserves `Valid` |
| TableInvariants.AddColumnTwice | cfu/cfu.py:265-271 | adding the same column twice is the same as adding it once |
| ColMan.AddColumnPosition | cfu/cfu.py:288-296 | the new header is the old one with the column removed and then inserted at the position; a new column gets the value in every row with other cells unchanged; an existing column only moves and no row changes |
| TableInvariants.AddColumnPositionKeepsValid | cfu/cfu.py:288-296 | `add_column_position` preserves `Valid`, and the header's column set gains exactly the column |
| ColMan.ValueUpdate | cfu/cfu.py:315-326 | an unknown target column returns False with nothing changed or saved; otherwise every row whose identifier equals the name gets the new value in the target column, no other cell changes, the result is True exactly when some row matched, and the table is saved only then; a row lacking the identifier raises KeyError with the earlier rows already updated |
| TableInvariants.ValueUpdateKeepsValid | cfu/cfu.py:315-326 | on a valid table with a known identifier column, `value_update` never raises and preserves `Valid` |
| TableInvariants.UpdatedRowIsFound | cfu/cfu.py:319-322 | after a `value_update` that returned True, the row a search by the identifier returns carries the new value |
| TableInvariants.ValueUpdateThenSearch | cfu/cfu.py:315-326 | the result is True exactly when a search by the identifier finds a row; after True, that search finds a row carrying the new value; after False the table is unchanged |
| ColMan.RmColumn | cfu/cfu.py:339-347 | an absent column returns False with nothing changed or saved; otherwise the header is the old one with the first occurrence of the column removed and the rest in order, the column leaves every row, every other cell is unchanged, and the result is True |
| TableInvariants.RmColumnKeepsValid | cfu/cfu.py:339-347 | `rm_column` preserves `Valid` |
| TableInvariants.AddThenRmColumn | cfu/cfu.py:339-347 | removing a column just added to a valid table gives back the original table |
| ColMan.RenameColumn | cfu/cfu.py:361-370 | an absent old name returns False with nothing changed; otherwise the header is the old one with only the first occurrence of the old name overwritten by the new name (as `list.index` finds it), each row's old value moves to the new key, other cells are unchanged, and the result is True; a row lacking the old name raises KeyError with the earlier rows already renamed and the header untouched |
| ColMan.RenameKeyKeys | cfu/cfu.py:365 | renaming one row's key replaces the old key by the new one in its key set |
| ColMan.RenameKeyBack | cfu/cfu.py:365 | renaming a key to a fresh name and back gives the row back |
| TableInvariants.RenameColumnKeepsValid | cfu/cfu.py:361-370 | renaming to a fresh name, or to itself, succeeds and preserves `Valid` |
| TableInvariants.RenameRoundTrip | cfu/cfu.py:361-370 | renaming a column to a fresh name and back gives back the original table |
| TableInvariants.DelDataThenSearch | cfu/cfu.py:201-205 | after `del_data`, searching the handler for the deleted value finds nothing |
| BasicCsv.CountRow | cfu/cfu.py:112-122 | `count_row` is the number of rows the handler holds in memory, not the number in the file, and is 0 exactly for an empty handler |
| TableInvariants.CountRowTracksOps | cfu/cfu.py:112-122 | `count_row` is unchanged by sort, update, value update (any name, target and identifier) and every column operation (any in-range position); after `del_data` it is the reloaded count minus the matching rows |
| CsvTable.LoadedFields | cfu/cfu.py:62-63 | reloading a file replaces the handler's header by the file's header when that is non-empty, and keeps the old one otherwise |
| Seqs.IndexOf | cfu/cfu.py:367 | `list.index`: the position of the first occurrence |
| Seqs.RemoveFirst | cfu/cfu.py:293 | `list.remove`: removes exactly the first occurrence, and leaves a list without the element unchanged |
| Seqs.InsertAt | cfu/cfu.py:295 | `list.insert` at an in-range position: the element lands at the position and the rest keep their order |
| Seqs.RemoveFirstNoDup | cfu/cfu.py:293 | on a header without duplicates, removal drops the name from the column set and keeps the header duplicate-free |
| Seqs.InsertAtNoDup | cfu/cfu.py:295 | inserting a fresh name keeps the header duplicate-free and adds it to the column set |
| Seqs.ReplaceNoDup | cfu/cfu.py:367-368 | overwriting one slot with a fresh name keeps the header duplicate-free and swaps the name in the column set |
| Seqs.IndexOfReplaced | cfu/cfu.py:367-368 | after the overwrite, the new name's index is the old name's slot |
| LegacyCfu.DelData | project_using_cfu/cfu.py:109-119 | the older `del_data` raises and replaces the header as the later copy does, and saves exactly the rows the later copy saves (the non-matching rows, in order), while the handler keeps every row it had |
| LegacyCfu.DelDataLeavesRowsStale | project_using_cfu/cfu.py:116-119 | when a row matches, the older and the corrected `del_data` save the same rows, but the older handler still counts every row and still holds a matching one |
| LegacyCfu.ValueUpdate | project_using_cfu/cfu.py:169-182 | the older `value_update` returns False for an unknown target column or an empty table, and otherwise raises TypeError with nothing changed |
| LegacyCfu.ValueUpdateAlwaysRaises | project_using_cfu/cfu.py:175-176 | wherever the corrected `value_update` finds the row and returns True, the older one raises TypeError |
| Scenarios.LoadedIsValid | Unit_Tests/test_cfu.py:60-71 | the four-row fixture is a valid table and `count_row` is 4 |
| Scenarios.SearchFindsJisan | Unit_Tests/test_cfu.py:75-79 | searching for Jisan finds Jisan's row |
| Scenarios.SearchMissesUnknown | Unit_Tests/test_cfu.py:81-84 | searching for an unknown name gives `None` |
| Scenarios.SearchRejectsAge | Unit_Tests/test_cfu.py:86-89 | searching the unknown column `age` gives `False` |
| Scenarios.SortByNameAscending | Unit_Tests/test_cfu.py:93-97 | sorting by name gives Elon, Jisan, Robart, Tom |
| Scenarios.SortByUnknownKey | Unit_Tests/test_cfu.py:106-109 | sorting by `city` raises KeyError |
| Scenarios.DeleteRobart | Unit_Tests/test_cfu.py:113-122 | deleting Robart leaves three rows, and searching for Robart gives `None` |
| Scenarios.LegacyDeleteRobart | project_using_cfu/cfu.py:109-119 | the older copy saves the three rows but still counts four |
| Scenarios.UpdateScores | Unit_Tests/test_cfu.py:126-140 | updating score 90 to 95 saves four rows, two of them with 95 |
| Scenarios.AddCity | Unit_Tests/test_cfu.py:175-182 | `city` becomes the last column, and the first row's city is Dhaka |
| Scenarios.AddEmailAtOne | Unit_Tests/test_cfu.py:184-190 | `email` lands at index 1, and the first row's email is set |
| Scenarios.RemoveScore | Unit_Tests/test_cfu.py:194-200 | removing `score` returns True and drops it from the header and the first row |
| Scenarios.RenameName | Unit_Tests/test_cfu.py:204-211 | renaming `name` to `full_name` returns True, and the first row's `full_name` is Robart |
| Scenarios.UpdateElon | Unit_Tests/test_cfu.py:215-224 | the update for Elon returns True, and a search finds Elon with score 100 |
| Scenarios.UpdateUnknown | Unit_Tests/test_cfu.py:226-234 | the update for an unknown name returns False and leaves the table unchanged |
| Scenarios.LegacyUpdateElon | project_using_cfu/cfu.py:175-176 | the older copy raises TypeError on the Elon update |

## Left out

- File I/O and the CSV text format: `_load_csv`, `save_csv`, `os.path.exists`, `csv.DictReader` and `csv.DictWriter` are not part of this model. They appear only as the `Disk` argument and as the `written` table. A save/load round trip cannot be stated without the `csv` module's quoting rules.
- `DictWriter` raises ValueError when a row has a key outside the header. This can happen when `self.data` is saved under a header that `sort_by` or `update_value` replaced with the header of a different file. The model records the table handed to `save_csv`, not whether writing it succeeds.
- `add_data` is modelled only as its in-memory append (`BasicCsv.AddData`). The answers are a parameter in place of the `input()` prompts, and the append-mode write to the file is not modelled.
- SortBy: only the text branch is modelled. The numeric branch (`float(x[key])`, with the `ValueError` fallback to text) depends on float parsing and float comparison. For keys that all parse as numbers, the model's order is the string order, not the numeric one.
- AddColumnPosition: `list.insert` counts a negative position from the end of the header and clamps a position that is still out of range. The model requires `0 <= position <= |header without the column|` instead.
- The mutable module default `FIELDS` is shared between handlers constructed without a header. This aliasing is not modelled: every table owns its header.
- Cell values are strings. A `None` default cell value (`add_column(col)` with no value) is not modelled.
- `str(del_value)` for a non-string value: `delValue` stands for the already converted text.
- The `file_name` parameter of the reloading operations: the `Disk` argument stands for whichever file is read.
- `project_using_cfu/product_man.py`, a two-line script, is not part of this model.

## Findings

| source | as written | input that shows it | evidently intended | confidence | as-written member | corrected member |
|---|---|---|---|---|---|---|
| project_using_cfu/cfu.py:169-182 | the identifier parameter `row` is shadowed by the loop variable, so the loop evaluates `row[row]`, a dict used as a dict key | the four-row fixture with `value_update("Elon", "score", "100")`: raises TypeError on the first row | rows whose identifier column equals the name get the new value, and True is returned | high (not executed) | LegacyCfu.ValueUpdateAlwaysRaises | TableInvariants.ValueUpdateThenSearch |
| project_using_cfu/cfu.py:109-119 | `del_data` saves the filtered rows but never assigns `self.data` | the four-row fixture with `del_data("Robart")`: the file holds 3 rows, but `count_row()` is 4 and a search still finds Robart | the handler holds the filtered rows, as the later copy does at cfu/cfu.py:205 | high (not executed) | LegacyCfu.DelDataLeavesRowsStale | TableInvariants.DelDataThenSearch |
