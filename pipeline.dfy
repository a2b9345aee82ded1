/**
 * The Scraper object: its configuration, write_record and the batch loop of
 * gather_with_concurrency, run in place on a Frame and flushing to a Disk.
 */
module Pipeline {
  import opened Options
  import opened Schema
  import opened Frames
  import opened Checkpoint
  import opened Extraction
  import opened Batches

  /**
   * What fetching and parsing one page yields: None when the request failed,
   * else the tables read, the empty list standing for read_html raising on a
   * page with no table.
   */
  type Page = Option<seq<ParsedTable>>

  /** The registry, as seen through fetch_html and the HTML parsers: a page per registration-number cell. */
  type Fetcher = Option<string> -> Page

  /** One task of the scraper: fetch the row's page, then process_record on it. */
  function Scrape(fetch: Fetcher): Processor
  {
    id => Extract(fetch(id))
  }

  /** process does for every registration-number cell what one task does with fetch. */
  ghost predicate Performs(process: Processor, fetch: Fetcher)
  {
    forall id {:trigger Extract(fetch(id))} :: process(id) == Extract(fetch(id))
  }

  /** The tasks of the scraper are one such processor. */
  lemma ScrapePerforms(fetch: Fetcher)
    ensures Performs(Scrape(fetch), fetch)
  {
  }

  /**
   * Where results are written: the given output file, or the input file
   * itself (so that a rerun resumes from it) when none or an empty name is given.
   */
  function OutputPath(inputFile: string, outputFile: Option<string>): (r: string)
    ensures outputFile.None? ==> r == inputFile
    ensures outputFile == Some("") ==> r == inputFile
    ensures outputFile.Some? && outputFile.value != "" ==> r == outputFile.value
  {
    if outputFile.None? || outputFile.value == "" then inputFile else outputFile.value
  }

  /**
   * write_record after a failed request: process_record returns an empty
   * dict, nothing is assigned, and the table is unchanged.
   */
  lemma FailedFetchLeavesTable(d: Dataset, i: nat, fetch: Fetcher, process: Processor)
    requires i < |d.rows| && IdColumn in d.columns && Performs(process, fetch)
    requires fetch(Cell(d.rows[i], IdColumn)).None?
    ensures RecordStep(d, i, process) == (d, true)
  {
    assert Extract(fetch(Cell(d.rows[i], IdColumn))) == Fields([]);
  }

  /**
   * Failure isolation: in a completed run a row whose request failed keeps its
   * old contents, while the other rows still get their records.
   */
  lemma FailedFetchKeepsRow(d: Dataset, fetch: Fetcher, process: Processor, path: string, j: nat)
    requires j < |d.rows| && IdColumn in d.columns && Performs(process, fetch)
    requires fetch(Cell(d.rows[j], IdColumn)).None?
    requires Run(d, process, path).completed
    ensures Run(d, process, path).data.rows[j] == d.rows[j]
  {
    assert Extract(fetch(Cell(d.rows[j], IdColumn))) == Fields([]);
    EmptyRecordKeepsRow(d, process, path, j);
  }

  class Scraper {
    const inputFile: string
    const outputFile: string
    /** self.columns: always Schema.Columns, the list Extraction.Project iterates. */
    const columns: seq<string>
    const timeout: real

    constructor (inputFile: string, outputFile: Option<string>, timeout: real)
      ensures this.inputFile == inputFile
      ensures this.outputFile == OutputPath(inputFile, outputFile)
      ensures columns == Columns && this.timeout == timeout
    {
      this.inputFile := inputFile;
      this.outputFile := OutputPath(inputFile, outputFile);
      columns := Columns;
      this.timeout := timeout;
    }

    /**
     * write_record: read the row's registration number, process its page and
     * assign every returned field into that row. Returns false when reading
     * the number or processing the page raised. The ghost process names, for
     * the contract only, what the task does for each cell.
     */
    method WriteRecord(frame: Frame, index: nat, fetch: Fetcher, ghost process: Processor) returns (ok: bool)
      requires index < frame.rows.Length && Performs(process, fetch)
      modifies frame, frame.rows
      ensures (frame.Value(), ok) == RecordStep(old(frame.Value()), index, process)
    {
      if IdColumn !in frame.columns {
        return false;
      }
      var idValue := Cell(frame.rows[index], IdColumn);
      var dataDict := ProcessRecord(fetch(idValue));
      if dataDict.Raised? {
        return false;
      }
      var fields := dataDict.pairs;
      ghost var d0 := frame.Value();
      assert RecordStep(d0, index, process) == (WriteFields(d0, index, fields), true);
      var k := 0;
      while k < |fields|
        invariant 0 <= k <= |fields|
        invariant frame.Value() == WriteFields(d0, index, fields[..k])
      {
        WriteFieldsSnoc(d0, index, fields, k);
        frame.SetAt(index, fields[k].0, fields[k].1);
        k := k + 1;
      }
      assert fields[..k] == fields;
      ok := true;
    }

    /**
     * One window of asyncio.gather: write_record for every row in [lo, hi).
     * The rows are disjoint, so running the tasks one after the other gives
     * the same table; the window stops at a record that raises.
     */
    method GatherWindow(frame: Frame, lo: nat, hi: nat, fetch: Fetcher, ghost process: Processor) returns (ok: bool)
      requires lo <= hi <= frame.rows.Length && Performs(process, fetch)
      modifies frame, frame.rows
      ensures (frame.Value(), ok) == BatchStep(old(frame.Value()), lo, hi, process)
    {
      var i := lo;
      while i < hi
        invariant lo <= i <= hi
        invariant BatchStep(frame.Value(), i, hi, process) == BatchStep(old(frame.Value()), lo, hi, process)
      {
        ok := WriteRecord(frame, i, fetch, process);
        if !ok {
          return;
        }
        i := i + 1;
      }
      ok := true;
    }

    /**
     * One pass of the for-loop body: gather the window starting at index and,
     * when no record raised, flush the table to the output file.
     */
    method ProcessWindow(frame: Frame, disk: Disk, index: nat, fetch: Fetcher, ghost process: Processor) returns (ok: bool)
      requires index < frame.rows.Length && Performs(process, fetch)
      modifies frame, frame.rows, disk
      ensures var step := BatchStep(old(frame.Value()), index, MinNat(index + BatchSize, frame.rows.Length), process);
        && ok == step.1 && frame.Value() == step.0
        && disk.writes == old(disk.writes) + if ok then [Snapshot(outputFile, step.0)] else []
    {
      var endIndex := MinNat(index + BatchSize, frame.rows.Length);
      ok := GatherWindow(frame, index, endIndex, fetch, process);
      if ok {
        frame.ToCsv(disk, outputFile);
      }
    }

    /**
     * gather_with_concurrency on a loaded table: windows of BatchSize rows
     * from the checkpoint on, the table flushed to the output file after each
     * window and at the end; a record that raises ends the run unflushed.
     */
    method GatherWithConcurrency(frame: Frame, disk: Disk, fetch: Fetcher, ghost process: Processor)
      requires Performs(process, fetch)
      modifies frame, frame.rows, disk
      ensures frame.Value() == Run(old(frame.Value()), process, outputFile).data
      ensures disk.writes == old(disk.writes) + Run(old(frame.Value()), process, outputFile).flushes
    {
      // the table and the log the run ends with
      ghost var data, log := Run(frame.Value(), process, outputFile).data, disk.writes + Run(frame.Value(), process, outputFile).flushes;
      var totalRecords := frame.rows.Length;
      var startIndex := FirstEmptyIndex(frame.Value());
      var index := startIndex;
      ResumesAtStart(frame.Value(), process, outputFile, disk.writes);
      while index < totalRecords
        invariant Resumes(frame.Value(), index, process, outputFile, disk.writes, data, log)
        decreases totalRecords - index
      {
        ResumesAfterWindow(frame.Value(), index, process, outputFile, disk.writes, data, log);
        var ok := ProcessWindow(frame, disk, index, fetch, process);
        if !ok {
          return;
        }
        index := index + BatchSize;
      }
      ResumesAtEnd(frame.Value(), index, process, outputFile, disk.writes, data, log);
      frame.ToCsv(disk, outputFile);
    }
  }
}
