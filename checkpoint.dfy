/** The resume point: the first row whose STATUS is still missing or empty. */
module Checkpoint {
  import opened Options
  import opened Schema
  import opened Frames

  /** A row still to be scraped: its STATUS is NaN or the empty string. */
  predicate Incomplete(row: Row)
  {
    var s := Cell(row, StatusColumn);
    s.None? || |s.value| == 0
  }

  /** The first incomplete row at or after k, or |rows| when there is none. */
  function FirstIncompleteFrom(rows: seq<Row>, k: nat): (r: nat)
    requires k <= |rows|
    ensures k <= r <= |rows|
    ensures forall j :: k <= j < r ==> !Incomplete(rows[j])
    ensures r < |rows| ==> Incomplete(rows[r])
    decreases |rows| - k
  {
    if k == |rows| then k
    else if Incomplete(rows[k]) then k
    else FirstIncompleteFrom(rows, k + 1)
  }

  /**
   * get_first_empty_index: 0 when the table has no STATUS column, otherwise
   * the least index of an incomplete row, or the row count when every row is
   * complete.
   */
  function FirstEmptyIndex(d: Dataset): (r: nat)
    ensures r <= |d.rows|
    ensures StatusColumn !in d.columns ==> r == 0
    ensures StatusColumn in d.columns ==>
      (forall j :: 0 <= j < r ==> !Incomplete(d.rows[j])) &&
      (r < |d.rows| ==> Incomplete(d.rows[r]))
  {
    if StatusColumn !in d.columns then 0 else FirstIncompleteFrom(d.rows, 0)
  }

  /**
   * The checkpoint never moves back: a table that keeps the STATUS column and
   * the rows before the old checkpoint has its checkpoint at or after the old one.
   */
  lemma CheckpointMonotone(d: Dataset, e: Dataset)
    requires |e.rows| == |d.rows|
    requires StatusColumn in d.columns ==> StatusColumn in e.columns
    requires forall j :: 0 <= j < FirstEmptyIndex(d) ==> e.rows[j] == d.rows[j]
    ensures FirstEmptyIndex(e) >= FirstEmptyIndex(d)
  {
  }

  /** Rows [0, k) complete and rows [k, n) incomplete give the checkpoint k. */
  lemma CheckpointOfPrefix(d: Dataset, k: nat)
    requires StatusColumn in d.columns
    requires k <= |d.rows|
    requires forall j :: 0 <= j < k ==> !Incomplete(d.rows[j])
    requires forall j :: k <= j < |d.rows| ==> Incomplete(d.rows[j])
    ensures FirstEmptyIndex(d) == k
  {
    if k < |d.rows| {
      assert Incomplete(d.rows[k]);
    }
  }

  /**
   * The cell values read_csv turns back into NaN when it reads a written table
   * with its default settings: the empty field and its default na_values.
   */
  const NaStrings: set<string> := {
    "", "#N/A", "#N/A N/A", "#NA", "-1.#IND", "-1.#QNAN", "-NaN", "-nan",
    "1.#IND", "1.#QNAN", "<NA>", "N/A", "NA", "NULL", "NaN", "None", "n/a",
    "nan", "null"
  }

  /** One cell after to_csv and read_csv: the NaN spellings come back as NaN. */
  function ReloadCell(v: Option<string>): Option<string>
  {
    if v.Some? && v.value !in NaStrings then v else None
  }

  /** The table the next run reads back from a flushed file. */
  function Reload(d: Dataset): (r: Dataset)
    ensures r.columns == d.columns && |r.rows| == |d.rows|
  {
    Dataset(d.columns, seq(|d.rows|, j requires 0 <= j < |d.rows| =>
      map c | c in d.rows[j] :: ReloadCell(d.rows[j][c])))
  }

  /** A reloaded row is incomplete exactly when its STATUS was NaN or one of the NaN spellings. */
  lemma ReloadIncomplete(d: Dataset, j: nat)
    requires j < |d.rows|
    ensures Incomplete(Reload(d).rows[j]) <==>
      Cell(d.rows[j], StatusColumn).None? || Cell(d.rows[j], StatusColumn).value in NaStrings
  {
    assert Cell(Reload(d).rows[j], StatusColumn) == ReloadCell(Cell(d.rows[j], StatusColumn));
  }

  /**
   * Reading a flushed table back never moves the checkpoint forward, and keeps
   * it exactly when no complete row before it has a STATUS that reads back as NaN.
   */
  lemma ReloadCheckpoint(d: Dataset)
    ensures FirstEmptyIndex(Reload(d)) <= FirstEmptyIndex(d)
    ensures FirstEmptyIndex(Reload(d)) == FirstEmptyIndex(d) <==>
      StatusColumn !in d.columns ||
      forall j :: 0 <= j < FirstEmptyIndex(d) ==> Cell(d.rows[j], StatusColumn).value !in NaStrings
  {
    var k := FirstEmptyIndex(d);
    if StatusColumn in d.columns {
      if k < |d.rows| {
        ReloadIncomplete(d, k);
      }
      if forall j :: 0 <= j < k ==> Cell(d.rows[j], StatusColumn).value !in NaStrings {
        forall j | 0 <= j < k
          ensures !Incomplete(Reload(d).rows[j])
        {
          ReloadIncomplete(d, j);
        }
      } else {
        var j :| 0 <= j < k && Cell(d.rows[j], StatusColumn).value in NaStrings;
        ReloadIncomplete(d, j);
      }
    }
  }

  /**
   * A row whose STATUS was written as "N/A" (the page had no status) is
   * incomplete again once the table is read back: the next run resumes at or
   * before it.
   */
  lemma NotAvailableReopens(d: Dataset, j: nat)
    requires StatusColumn in d.columns && j < |d.rows|
    requires Cell(d.rows[j], StatusColumn) == Some(NotAvailable)
    ensures Incomplete(Reload(d).rows[j])
    ensures FirstEmptyIndex(Reload(d)) <= j
  {
    ReloadIncomplete(d, j);
  }
}
