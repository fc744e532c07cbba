/** The unit-test fixture of the library (four rows keyed by `id`, `name`
    and `score`) stated against the model: each lemma states what one test
    expects, about the freshly loaded table. */
module Scenarios {
  import opened CsvTable
  import opened BasicCsv
  import opened ColMan
  import LegacyCfu
  import TableInvariants
  import TextOrder
  import StableSort
  import Seqs

  const Robart: Row := map["id" := "1", "name" := "Robart", "score" := "90"]
  const Elon: Row := map["id" := "2", "name" := "Elon", "score" := "85"]
  const Jisan: Row := map["id" := "3", "name" := "Jisan", "score" := "92"]
  const Tom: Row := map["id" := "4", "name" := "Tom", "score" := "90"]

  const Header: seq<string> := ["id", "name", "score"]

  /** The handler right after construction, and the file it was read from. */
  const Loaded: Table := Table(Header, [Robart, Elon, Jisan, Tom])
  const File: Disk := Present(Header, [Robart, Elon, Jisan, Tom])

  lemma LoadedIsValid()
    ensures Valid(Loaded) && CountRow(Loaded) == 4
  {
    assert Seqs.FieldSet(Header) == {"id", "name", "score"};
  }

  lemma SearchFindsJisan()
    ensures SearchColumn(Loaded, "name", "Jisan") == Ok(Found(Jisan))
  {
    var rows := Loaded.rows;
    assert Scan(rows[1..][1..], "name", "Jisan") == 0;
    assert Scan(rows[1..], "name", "Jisan") == 1;
    assert Scan(rows, "name", "Jisan") == 2;
  }

  /** No fixture row is named `Unknown`. */
  lemma NoneNamedUnknown()
    ensures HasColumn(Loaded.rows, "name")
    ensures ClearBefore(Loaded.rows, "name", "Unknown", |Loaded.rows|)
  {
  }

  lemma SearchMissesUnknown()
    ensures SearchColumn(Loaded, "name", "Unknown") == Ok(NotFound)
  {
    NoneNamedUnknown();
  }

  lemma SearchRejectsAge()
    ensures SearchColumn(Loaded, "age", "92") == Ok(InvalidColumn)
  {
  }

  lemma SortLastTwo()
    ensures StableSort.Sort([Jisan, Tom], "name", false) == [Jisan, Tom]
  {
    assert [Tom][1..] == [];
    assert StableSort.Sort([Tom], "name", false) == [Tom];
    assert [Jisan, Tom][1..] == [Tom];
    TextOrder.LessAsymmetric("Jisan", "Tom");
  }

  /** Sorting the last three fixture rows by name: Elon, Jisan, Tom. */
  lemma SortLastThree()
    ensures StableSort.Sort([Elon, Jisan, Tom], "name", false) == [Elon, Jisan, Tom]
  {
    SortLastTwo();
    assert [Elon, Jisan, Tom][1..] == [Jisan, Tom];
    TextOrder.LessAsymmetric("Elon", "Jisan");
  }

  /** Inserting Robart's row into the sorted rest: after Jisan, before Tom,
      one step of the insertion at a time. */
  lemma InsertRobartBeforeTom()
    ensures StableSort.Insert(Robart, [Tom], "name", false) == [Robart, Tom]
  {
    TextOrder.LessAsymmetric("Robart", "Tom");
  }

  lemma InsertRobartAfterJisan()
    ensures StableSort.Insert(Robart, [Jisan, Tom], "name", false) == [Jisan, Robart, Tom]
  {
    InsertRobartBeforeTom();
    assert TextOrder.Less("Jisan", "Robart");
    assert [Jisan, Tom][1..] == [Tom];
  }

  lemma InsertRobart()
    ensures StableSort.Insert(Robart, [Elon, Jisan, Tom], "name", false) == [Elon, Jisan, Robart, Tom]
  {
    InsertRobartAfterJisan();
    assert TextOrder.Less("Elon", "Robart");
    assert [Elon, Jisan, Tom][1..] == [Jisan, Tom];
  }

  lemma SortFixtureByName()
    ensures StableSort.Sort([Robart, Elon, Jisan, Tom], "name", false) == [Elon, Jisan, Robart, Tom]
  {
    SortLastThree();
    InsertRobart();
    assert [Robart, Elon, Jisan, Tom][1..] == [Elon, Jisan, Tom];
  }

  lemma FixtureHasName()
    ensures FirstMissing([Robart, Elon, Jisan, Tom], "name") == 4
  {
    var rows := [Robart, Elon, Jisan, Tom];
    assert rows[..4] == rows;
    assert HasColumn(rows, "name");
  }

  lemma SortByNameAscending()
    ensures var r := SortBy(Loaded, File, "name", false);
            r.Done? && r.value == [Elon, Jisan, Robart, Tom]
  {
    FixtureHasName();
    SortFixtureByName();
  }

  lemma SortByUnknownKey()
    ensures SortBy(Loaded, File, "city", false) == Raised(Loaded, KeyError("city"))
  {
    assert "city" !in Loaded.rows[0];
  }

  lemma NamedRobart()
    ensures HasColumn(Loaded.rows, "name")
    ensures Matching(Loaded.rows, "name", "Robart") == [Robart]
  {
    var rows := Loaded.rows;
    assert rows[1..][1..][1..][1..] == [];
    assert Matching(rows[1..][1..][1..], "name", "Robart") == [];
    assert Matching(rows[1..][1..], "name", "Robart") == [];
    assert Matching(rows[1..], "name", "Robart") == [];
  }

  lemma DeleteRobart()
    ensures var r := DelData(Loaded, File, "Robart", "name");
            && r.Done? && CountRow(r.table) == 3
            && SearchColumn(r.table, "name", "Robart") == Ok(NotFound)
  {
    TableInvariants.DelDataThenSearch(Loaded, File, "Robart", "name");
    NamedRobart();
  }

  /** The older copy saves the same three rows but still counts four. */
  lemma LegacyDeleteRobart()
    ensures var r := LegacyCfu.DelData(Loaded, File, "Robart", "name");
            && r.Done? && CountRow(r.table) == 4 && |r.written.value.rows| == 3
  {
    NamedRobart();
    FixtureHasName();
    SplitByValue(Loaded.rows, "name", "Robart");
  }

  /** Robart and Tom score 90; nobody scores 95. */
  lemma ScoresOfFixture()
    ensures HasColumn(Loaded.rows, "score")
    ensures |Matching(Loaded.rows, "score", "90")| == 2
    ensures Matching(Loaded.rows, "score", "95") == []
  {
    var rows := Loaded.rows;
    assert rows[1..][1..][1..][1..] == [];
    assert Matching(rows[1..][1..][1..], "score", "90") == [Tom];
    assert Matching(rows[1..][1..], "score", "90") == [Tom];
    assert Matching(rows[1..], "score", "90") == [Tom];
    assert Matching(rows[1..][1..][1..], "score", "95") == [];
    assert Matching(rows[1..][1..], "score", "95") == [];
    assert Matching(rows[1..], "score", "95") == [];
  }

  lemma UpdateScores()
    ensures var r := UpdateValue(Loaded, File, "score", "90", "95");
            && r.Done? && |r.written.value.rows| == 4
            && HasColumn(r.written.value.rows, "score")
            && |Matching(r.written.value.rows, "score", "95")| == 2
  {
    ScoresOfFixture();
    UpdateValueCounts(Loaded, File, "score", "90", "95");
  }

  lemma AddCity()
    ensures var r := AddColumn(Loaded, "city", "Dhaka");
            r.table.fields == Header + ["city"] && r.table.rows[0]["city"] == "Dhaka"
  {
  }

  lemma AddEmailAtOne()
    ensures var r := AddColumnPosition(Loaded, "email", 1, "test@example.com");
            r.table.fields == ["id", "email", "name", "score"] && r.table.rows[0]["email"] == "test@example.com"
  {
    var a := AddColumnPosition(Loaded, "email", 1, "test@example.com").table.fields;
    assert a[..1] + a[2..] == Header;
    assert a[..1] == ["id"];
    assert a == a[..1] + [a[1]] + a[2..];
  }

  lemma RemoveScore()
    ensures var r := RmColumn(Loaded, "score");
            r.value && "score" !in r.table.fields && "score" !in r.table.rows[0]
  {
    assert Seqs.NoDup(Header);
  }

  lemma RenameName()
    ensures var r := RenameColumn(Loaded, "name", "full_name");
            r.Done? && r.value && r.table.fields == ["id", "full_name", "score"]
            && r.table.rows[0]["full_name"] == "Robart"
  {
    LoadedIsValid();
    FixtureHasName();
    assert Seqs.IndexOf(Header, "name") == 1;
  }

  /** `value_update` finds Elon and changes his score. */
  lemma UpdateElon()
    ensures var r := ValueUpdate(Loaded, "Elon", "score", "100", "name");
            && r.Done? && r.value
            && var s := SearchColumn(r.table, "name", "Elon");
               s.Ok? && s.value.Found? && s.value.row["score"] == "100"
  {
    LoadedIsValid();
    TableInvariants.SearchColumnOnValid(Loaded, "name", "Elon");
    assert Loaded.rows[1]["name"] == "Elon";
    TableInvariants.ValueUpdateThenSearch(Loaded, "Elon", "score", "100", "name");
  }

  /** With an unknown name it reports False and leaves the table alone. */
  lemma UpdateUnknown()
    ensures var r := ValueUpdate(Loaded, "Unknown", "score", "100", "name");
            r.Done? && !r.value && r.table == Loaded
  {
    NoneNamedUnknown();
    var rows := Loaded.rows;
    assert FirstMissing(rows, "name") == 4 by { FixtureHasName(); }
    assert Scan(rows, "name", "Unknown") == 4 by { SearchMissesUnknown(); }
    assert Rewrite(rows, "name", "Unknown", "score", "100") == rows;
  }

  /** The older copy raises on the same call. */
  lemma LegacyUpdateElon()
    ensures LegacyCfu.ValueUpdate(Loaded, "Elon", "score", "100", "name") == Raised(Loaded, TypeError)
  {
  }
}
