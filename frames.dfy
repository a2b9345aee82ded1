/**
 * The in-memory dataset (the pandas DataFrame read from the input CSV) and
 * the durable store the scraper flushes it to.
 */
module Frames {
  import opened Options

  /**
   * One row: a column name maps to its cell. A key that is absent, or present
   * with None, is a NaN cell.
   */
  type Row = map<string, Option<string>>

  /** The table: its column labels in order and its rows, addressed by position. */
  datatype Dataset = Dataset(columns: seq<string>, rows: seq<Row>)

  /** One to_csv call: the file written and the table it then held. */
  datatype Snapshot = Snapshot(path: string, data: Dataset)

  /** The cell of a row under a column; NaN when the row has no value there. */
  function Cell(row: Row, c: string): Option<string>
  {
    if c in row then row[c] else None
  }

  /** The column labels after assigning into column c: a new label is appended. */
  function AddColumn(columns: seq<string>, c: string): seq<string>
  {
    if c in columns then columns else columns + [c]
  }

  /** The column names an ordered field list writes. */
  function Keys(fields: seq<(string, string)>): set<string>
  {
    set k | 0 <= k < |fields| :: fields[k].0
  }

  /** df.at[i, c] = v: one cell set, the column created if the table lacks it. */
  function SetCell(d: Dataset, i: nat, c: string, v: string): Dataset
    requires i < |d.rows|
  {
    Dataset(AddColumn(d.columns, c), d.rows[i := d.rows[i][c := Some(v)]])
  }

  /** A row after writing the fields into it one after the other. */
  function WriteRow(row: Row, fields: seq<(string, string)>): Row
  {
    if fields == [] then row
    else WriteRow(row, fields[..|fields| - 1])[fields[|fields| - 1].0 := Some(fields[|fields| - 1].1)]
  }

  /**
   * The table after writing the fields into row i, in order: only that row
   * changes, and the only labels added are the fields' own.
   */
  function WriteFields(d: Dataset, i: nat, fields: seq<(string, string)>): (r: Dataset)
    requires i < |d.rows|
    ensures |r.rows| == |d.rows|
    ensures forall j :: 0 <= j < |d.rows| && j != i ==> r.rows[j] == d.rows[j]
    ensures r.rows[i] == WriteRow(d.rows[i], fields)
    ensures d.columns <= r.columns
    ensures forall c :: c in r.columns ==> c in d.columns || c in Keys(fields)
    ensures forall c :: c in Keys(fields) ==> c in r.columns
  {
    if fields == [] then d
    else
      var prefix := fields[..|fields| - 1];
      assert Keys(fields) == Keys(prefix) + {fields[|fields| - 1].0} by {
        forall c | c in Keys(fields) ensures c in Keys(prefix) + {fields[|fields| - 1].0} {
          var k :| 0 <= k < |fields| && fields[k].0 == c;
          if k < |fields| - 1 { assert prefix[k] == fields[k]; }
        }
        forall c | c in Keys(prefix) ensures c in Keys(fields) {
          var k :| 0 <= k < |prefix| && prefix[k].0 == c;
          assert fields[k] == prefix[k];
        }
      }
      SetCell(WriteFields(d, i, prefix), i, fields[|fields| - 1].0, fields[|fields| - 1].1)
  }

  /** Writing one more field is one more df.at assignment. */
  lemma WriteFieldsSnoc(d: Dataset, i: nat, fields: seq<(string, string)>, k: nat)
    requires i < |d.rows| && k < |fields|
    ensures WriteFields(d, i, fields[..k + 1]) == SetCell(WriteFields(d, i, fields[..k]), i, fields[k].0, fields[k].1)
  {
    assert fields[..k + 1][..k] == fields[..k];
  }

  /** A column no field names keeps its cell. */
  lemma {:induction false} WriteRowKeeps(row: Row, fields: seq<(string, string)>, c: string)
    requires forall k :: 0 <= k < |fields| ==> fields[k].0 != c
    ensures Cell(WriteRow(row, fields), c) == Cell(row, c)
  {
    if fields != [] {
      WriteRowKeeps(row, fields[..|fields| - 1], c);
    }
  }

  /** The column of field k holds field k's value when no later field names the same column. */
  lemma {:induction false} WriteRowLastWins(row: Row, fields: seq<(string, string)>, k: nat)
    requires k < |fields|
    requires forall k' :: k < k' < |fields| ==> fields[k'].0 != fields[k].0
    ensures Cell(WriteRow(row, fields), fields[k].0) == Some(fields[k].1)
  {
    if k < |fields| - 1 {
      WriteRowLastWins(row, fields[..|fields| - 1], k);
    }
  }

  /** The mutable DataFrame: its labels are reassigned, its rows are updated in place. */
  class Frame {
    var columns: seq<string>
    const rows: array<Row>

    constructor (d: Dataset)
      ensures Value() == d && fresh(rows)
    {
      columns := d.columns;
      rows := new Row[|d.rows|](i requires 0 <= i < |d.rows| => d.rows[i]);
    }

    /** The table the frame currently holds. */
    function Value(): Dataset
      reads this, rows
    {
      Dataset(columns, rows[..])
    }

    /** df.at[i, c] = v. */
    method SetAt(i: nat, c: string, v: string)
      requires i < rows.Length
      modifies this, rows
      ensures Value() == SetCell(old(Value()), i, c, v)
    {
      columns := AddColumn(columns, c);
      rows[i] := rows[i][c := Some(v)];
    }

    /** df.to_csv(path): the whole table is written to the file. */
    method ToCsv(disk: Disk, path: string)
      modifies disk
      ensures disk.writes == old(disk.writes) + [Snapshot(path, Value())]
    {
      disk.writes := disk.writes + [Snapshot(path, Value())];
    }
  }

  /** The durable store, as the list of tables written to it, oldest first. */
  class Disk {
    var writes: seq<Snapshot>

    constructor ()
      ensures writes == []
    {
      writes := [];
    }
  }
}
