/** The state shared by `BasicCsv` and `ColMan`: a header (`fields`) and the
    rows held in memory (`data`), plus what an operation leaves behind. */
module CsvTable {
  import opened Seqs

  /** One record, as `csv.DictReader` yields it: column name to cell text. */
  type Row = map<string, string>

  datatype Option<+T> = None | Some(value: T)

  /** `fields` is the header, in order; `rows` is `self.data`, in order. */
  datatype Table = Table(fields: seq<string>, rows: seq<Row>)

  /** The exceptions the table code lets escape. */
  datatype Error =
    | FileNotFound          // the file to reload does not exist
    | KeyError(key: string) // a row lacks the column it is indexed by
    | TypeError             // a dict used as a dict key

  /** The outcome of a lookup that mutates nothing. */
  datatype Result<+T> = Ok(value: T) | Err(error: Error)

  /** What an operation leaves behind. `Done` carries the handler's table
      afterwards, the table handed to `save_csv` (the whole file content) if
      the operation saved, and the Python return value. `Raised` carries the
      handler's table at the moment the exception escaped. */
  datatype Outcome<+T> =
    | Done(table: Table, written: Option<Table>, value: T)
    | Raised(table: Table, error: Error)

  /** The file an operation reloads: absent, or its header and records. */
  datatype Disk = Missing | Present(header: seq<string>, rows: seq<Row>)

  /** The table invariant: no duplicate column, and every row is keyed by
      exactly the header's columns. */
  predicate Valid(t: Table)
  {
    && NoDup(t.fields)
    && forall i :: 0 <= i < |t.rows| ==> t.rows[i].Keys == FieldSet(t.fields)
  }

  /** Every row can be indexed by `col` without a KeyError. */
  predicate HasColumn(rows: seq<Row>, col: string)
  {
    forall i :: 0 <= i < |rows| ==> col in rows[i]
  }

  /** `self.fields` after `_load_csv` read `header`: a non-empty header
      replaces it, an empty one leaves it. */
  function LoadedFields(t: Table, header: seq<string>): (f: seq<string>)
    ensures header != [] ==> f == header
    ensures header == [] ==> f == t.fields
    ensures f == [] <==> header == [] && t.fields == []
  {
    if |header| > 0 then header else t.fields
  }

  /** `b` differs from `a` at most in column `col`: the same other keys,
      with the same cells. */
  predicate SameElsewhere(a: Row, b: Row, col: string)
  {
    && a.Keys - {col} == b.Keys - {col}
    && forall c :: c in a && c != col ==> c in b && a[c] == b[c]
  }

  /** Where a `for row in rows: ... row[col] ...` loop raises: the index of
      the first row lacking `col`, or `|rows|` when none does. */
  function FirstMissing(rows: seq<Row>, col: string): (k: nat)
    ensures k <= |rows|
    ensures HasColumn(rows[..k], col)
    ensures k < |rows| ==> col !in rows[k]
  {
    if |rows| == 0 then 0
    else if col !in rows[0] then 0
    else
      var k := FirstMissing(rows[1..], col);
      assert rows[..k + 1] == [rows[0]] + rows[1..][..k];
      1 + k
  }

  /** The rows whose `col` cell is `v`, in their original order. */
  function Matching(rows: seq<Row>, col: string, v: string): seq<Row>
    requires HasColumn(rows, col)
  {
    if |rows| == 0 then []
    else (if rows[0][col] == v then [rows[0]] else []) + Matching(rows[1..], col, v)
  }

  /** The rows whose `col` cell is not `v`, in their original order. */
  function Others(rows: seq<Row>, col: string, v: string): seq<Row>
    requires HasColumn(rows, col)
  {
    if |rows| == 0 then []
    else (if rows[0][col] != v then [rows[0]] else []) + Others(rows[1..], col, v)
  }

  /** Every row whose `idCol` cell is `idValue` gets `target := v`; the
      others are kept as they are. */
  function Rewrite(rows: seq<Row>, idCol: string, idValue: string, target: string, v: string): seq<Row>
    requires HasColumn(rows, idCol)
  {
    seq(|rows|, i requires 0 <= i < |rows| =>
      if rows[i][idCol] == idValue then rows[i][target := v] else rows[i])
  }

  /** `Others` keeps exactly the non-matching rows, `Matching` exactly the
      matching ones, and between them they account for every row. */
  lemma {:induction false} SplitByValue(rows: seq<Row>, col: string, v: string)
    requires HasColumn(rows, col)
    ensures forall r :: r in Matching(rows, col, v) ==> r in rows && r[col] == v
    ensures forall r :: r in Others(rows, col, v) ==> r in rows && r[col] != v
    ensures forall r :: r in rows && r[col] != v ==> r in Others(rows, col, v)
    ensures multiset(Matching(rows, col, v)) + multiset(Others(rows, col, v)) == multiset(rows)
    ensures |Others(rows, col, v)| == |rows| - |Matching(rows, col, v)|
  {
    if |rows| > 0 {
      SplitByValue(rows[1..], col, v);
      assert rows == [rows[0]] + rows[1..];
    }
  }

  /** Selecting rows by value distributes over concatenation: the filters
      keep the original relative order. */
  lemma {:induction false} SelectConcat(a: seq<Row>, b: seq<Row>, col: string, v: string)
    requires HasColumn(a, col) && HasColumn(b, col)
    ensures HasColumn(a + b, col)
    ensures Matching(a + b, col, v) == Matching(a, col, v) + Matching(b, col, v)
    ensures Others(a + b, col, v) == Others(a, col, v) + Others(b, col, v)
  {
    if |a| > 0 {
      assert (a + b)[1..] == a[1..] + b;
      SelectConcat(a[1..], b, col, v);
    } else {
      assert a + b == b;
    }
  }
}
