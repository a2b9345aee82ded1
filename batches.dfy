/**
 * The batch loop of gather_with_concurrency, as functions: windows of at most
 * twenty rows from the checkpoint on, each row written by its own record, the
 * table flushed after every window and once more at the end.
 */
module Batches {
  import opened Options
  import opened Schema
  import opened Frames
  import opened Checkpoint
  import opened Extraction

  /** The number of rows fetched concurrently between two flushes. */
  const BatchSize: nat := 20

  /**
   * The work one task does for a registration-number cell: fetch_html on the
   * registry page, then process_record on what was read.
   */
  type Processor = Option<string> -> Outcome

  function MinNat(a: nat, b: nat): nat
  {
    if a < b then a else b
  }

  /**
   * The windows [i, min(i + 20, n)) for i in range(start, n, 20): the k-th
   * starts 20 * k rows after start, and the list stops at the first start
   * that is not below n.
   */
  function Windows(start: nat, n: nat): (ws: seq<(nat, nat)>)
    ensures forall k :: 0 <= k < |ws| ==> ws[k].0 == start + BatchSize * k && ws[k].0 < n
    ensures forall k :: 0 <= k < |ws| ==> ws[k].1 == MinNat(ws[k].0 + BatchSize, n)
    ensures start + BatchSize * |ws| >= n
    decreases n - start
  {
    if start >= n then [] else [(start, MinNat(start + BatchSize, n))] + Windows(start + BatchSize, n)
  }

  /** Row j lies in one of the windows. */
  predicate InSomeWindow(ws: seq<(nat, nat)>, j: nat)
  {
    exists k :: 0 <= k < |ws| && ws[k].0 <= j < ws[k].1
  }

  /**
   * The windows are non-empty, at most 20 rows long, increasing and pairwise
   * disjoint, and together they cover exactly the rows [start, n).
   */
  lemma WindowsPartition(start: nat, n: nat)
    ensures var ws := Windows(start, n);
      && (forall k :: 0 <= k < |ws| ==> start <= ws[k].0 < ws[k].1 <= n && ws[k].1 - ws[k].0 <= BatchSize)
      && (forall k, k' :: 0 <= k < k' < |ws| ==> ws[k].1 <= ws[k'].0)
      && (forall j: nat :: start <= j < n <==> InSomeWindow(ws, j))
  {
    var ws := Windows(start, n);
    forall j: nat | start <= j < n
      ensures InSomeWindow(ws, j)
    {
      var k := (j - start) / BatchSize;
      assert start + BatchSize * k <= j < start + BatchSize * (k + 1);
      assert k < |ws|;
      assert ws[k].0 <= j < ws[k].1;
    }
  }

  /**
   * The outcome of process_record for row i; reading the registration number
   * raises when the table has no N-NUMBER column.
   */
  function RecordFor(d: Dataset, i: nat, process: Processor): Outcome
    requires i < |d.rows|
  {
    if IdColumn !in d.columns then Raised else process(Cell(d.rows[i], IdColumn))
  }

  /** write_record on row i: the table afterwards, and false when the record raised. */
  function RecordStep(d: Dataset, i: nat, process: Processor): (Dataset, bool)
    requires i < |d.rows|
  {
    match RecordFor(d, i, process)
    case Raised => (d, false)
    case Fields(fs) => (WriteFields(d, i, fs), true)
  }

  /**
   * The records of rows [j, hi), one after the other, stopping at the first
   * that raises. Rows outside the window are never changed.
   */
  function BatchStep(d: Dataset, j: nat, hi: nat, process: Processor): (r: (Dataset, bool))
    requires j <= hi <= |d.rows|
    ensures |r.0.rows| == |d.rows|
    ensures d.columns <= r.0.columns
    decreases hi - j
  {
    if j == hi then (d, true)
    else
      var step := RecordStep(d, j, process);
      if !step.1 then step else BatchStep(step.0, j + 1, hi, process)
  }

  /** Rows outside the window [j, hi) are never changed. */
  lemma {:induction false} BatchStepKeeps(d: Dataset, j: nat, hi: nat, process: Processor)
    requires j <= hi <= |d.rows|
    ensures forall k :: 0 <= k < |d.rows| && !(j <= k < hi) ==> BatchStep(d, j, hi, process).0.rows[k] == d.rows[k]
    decreases hi - j
  {
    if j < hi {
      var step := RecordStep(d, j, process);
      if step.1 {
        BatchStepKeeps(step.0, j + 1, hi, process);
      }
    }
  }

  /** The end of a run: the table in memory, the tables flushed, and whether the loop finished. */
  datatype RunResult = RunResult(data: Dataset, flushes: seq<Snapshot>, completed: bool)

  /**
   * The batch loop from row index on: after each window the table is flushed
   * to path; a raising record ends the run with no further flush; after the
   * last window the table is flushed once more. Rows before index and the
   * existing columns are kept in memory and in every flush.
   */
  function RunFrom(d: Dataset, index: nat, process: Processor, path: string): (r: RunResult)
    ensures |r.data.rows| == |d.rows|
    ensures r.completed ==> r.flushes != [] && r.flushes[|r.flushes| - 1].data == r.data
    decreases |d.rows| - index
  {
    if index >= |d.rows| then RunResult(d, [Snapshot(path, d)], true)
    else
      var step := BatchStep(d, index, MinNat(index + BatchSize, |d.rows|), process);
      if !step.1 then RunResult(step.0, [], false)
      else
        var rest := RunFrom(step.0, index + BatchSize, process, path);
        RunResult(rest.data, [Snapshot(path, step.0)] + rest.flushes, rest.completed)
  }

  /** Table e has table d's row count and columns, and its rows before index. */
  predicate KeepsPrefix(d: Dataset, e: Dataset, index: nat)
  {
    && |e.rows| == |d.rows| && d.columns <= e.columns
    && forall k :: 0 <= k < index && k < |d.rows| ==> e.rows[k] == d.rows[k]
  }

  /** Keeping a prefix composes: two steps keep the shorter of their prefixes. */
  lemma KeepsPrefixTrans(d: Dataset, e: Dataset, f: Dataset, i: nat, j: nat)
    requires KeepsPrefix(d, e, i) && KeepsPrefix(e, f, j) && i <= j
    ensures KeepsPrefix(d, f, i)
  {
  }

  /** Every table in flushes goes to path and keeps table d's prefix up to index. */
  predicate FlushesKeep(d: Dataset, flushes: seq<Snapshot>, index: nat, path: string)
  {
    forall s :: s in flushes ==> s.path == path && KeepsPrefix(d, s.data, index)
  }

  /** A window's flush followed by the flushes of the later windows keeps the prefix. */
  lemma FlushesKeepCons(d: Dataset, e: Dataset, rest: seq<Snapshot>, index: nat, index': nat, path: string)
    requires KeepsPrefix(d, e, index) && FlushesKeep(e, rest, index', path) && index <= index'
    ensures FlushesKeep(d, [Snapshot(path, e)] + rest, index, path)
  {
  }

  /**
   * Rows before index and the existing columns are kept in memory and in
   * every flush, and every flush goes to path.
   */
  lemma {:induction false} RunFromKeeps(d: Dataset, index: nat, process: Processor, path: string)
    ensures var r := RunFrom(d, index, process, path);
      KeepsPrefix(d, r.data, index) && FlushesKeep(d, r.flushes, index, path)
    decreases |d.rows| - index
  {
    var n := |d.rows|;
    if index < n {
      var hi := MinNat(index + BatchSize, n);
      var step := BatchStep(d, index, hi, process);
      RunFromUnfold(d, index, process, path);
      BatchStepKeeps(d, index, hi, process);
      assert KeepsPrefix(d, step.0, index);
      if step.1 {
        var rest := RunFrom(step.0, index + BatchSize, process, path);
        RunFromKeeps(step.0, index + BatchSize, process, path);
        KeepsPrefixTrans(d, step.0, rest.data, index, index + BatchSize);
        FlushesKeepCons(d, step.0, rest.flushes, index, index + BatchSize, path);
      }
    }
  }

  /** One more window of the batch loop: it either ends the run or hands over to the next window. */
  lemma RunFromUnfold(d: Dataset, index: nat, process: Processor, path: string)
    requires index < |d.rows|
    ensures var step := BatchStep(d, index, MinNat(index + BatchSize, |d.rows|), process);
      var rest := RunFrom(step.0, index + BatchSize, process, path);
      RunFrom(d, index, process, path) ==
        if !step.1 then RunResult(step.0, [], false)
        else RunResult(rest.data, [Snapshot(path, step.0)] + rest.flushes, rest.completed)
  {
  }

  /** gather_with_concurrency on the loaded table: the batch loop from the checkpoint. */
  function Run(d: Dataset, process: Processor, path: string): RunResult
  {
    RunFrom(d, FirstEmptyIndex(d), process, path)
  }

  /**
   * Table d, about to run the loop from index on with the log written so
   * far, ends holding data with the log grown to log.
   */
  ghost predicate Resumes(d: Dataset, index: nat, process: Processor, path: string,
                          written: seq<Snapshot>, data: Dataset, log: seq<Snapshot>)
  {
    var r := RunFrom(d, index, process, path);
    r.data == data && written + r.flushes == log
  }

  /** Before the first window the whole run lies ahead of the log as it stands. */
  lemma ResumesAtStart(d: Dataset, process: Processor, path: string, written: seq<Snapshot>)
    ensures var r := Run(d, process, path);
      Resumes(d, FirstEmptyIndex(d), process, path, written, r.data, written + r.flushes)
  {
  }

  /**
   * One window of the loop: a raise ends the run with the table and log as
   * they stand, otherwise the window's table is appended to the log.
   */
  lemma ResumesAfterWindow(d: Dataset, index: nat, process: Processor, path: string,
                           written: seq<Snapshot>, data: Dataset, log: seq<Snapshot>)
    requires index < |d.rows| && Resumes(d, index, process, path, written, data, log)
    ensures var step := BatchStep(d, index, MinNat(index + BatchSize, |d.rows|), process);
      if step.1 then Resumes(step.0, index + BatchSize, process, path, written + [Snapshot(path, step.0)], data, log)
      else step.0 == data && written == log
  {
    var step := BatchStep(d, index, MinNat(index + BatchSize, |d.rows|), process);
    RunFromUnfold(d, index, process, path);
    if step.1 {
      var rest := RunFrom(step.0, index + BatchSize, process, path);
      assert written + ([Snapshot(path, step.0)] + rest.flushes) == (written + [Snapshot(path, step.0)]) + rest.flushes;
    }
  }

  /** After the last window the table is flushed once more, which completes the log. */
  lemma ResumesAtEnd(d: Dataset, index: nat, process: Processor, path: string,
                     written: seq<Snapshot>, data: Dataset, log: seq<Snapshot>)
    requires index >= |d.rows| && Resumes(d, index, process, path, written, data, log)
    ensures d == data && written + [Snapshot(path, d)] == log
  {
  }

  /**
   * Resuming never loses progress: rows before the checkpoint are untouched,
   * and the checkpoint of the final table and of every flushed table is at or
   * after the one the run started from.
   */
  lemma ResumeNeverGoesBack(d: Dataset, process: Processor, path: string)
    ensures var r := Run(d, process, path);
      && (forall j :: 0 <= j < FirstEmptyIndex(d) ==> r.data.rows[j] == d.rows[j])
      && FirstEmptyIndex(r.data) >= FirstEmptyIndex(d)
      && forall s :: s in r.flushes ==> s.path == path && FirstEmptyIndex(s.data) >= FirstEmptyIndex(d)
  {
    var r := Run(d, process, path);
    RunFromKeeps(d, FirstEmptyIndex(d), process, path);
    CheckpointMonotone(d, r.data);
    forall s | s in r.flushes
      ensures FirstEmptyIndex(s.data) >= FirstEmptyIndex(d)
    {
      CheckpointMonotone(d, s.data);
    }
  }

  /** Row j after its own record: its fields written, or unchanged when the record raised. */
  function Processed(d: Dataset, j: nat, process: Processor): Row
    requires j < |d.rows|
  {
    match RecordFor(d, j, process)
    case Fields(fs) => WriteRow(d.rows[j], fs)
    case Raised => d.rows[j]
  }

  /** The column labels row j's record assigns into: none when it raises. */
  function Writes(d: Dataset, j: nat, process: Processor): set<string>
  {
    if j < |d.rows| && RecordFor(d, j, process).Fields? then Keys(RecordFor(d, j, process).pairs) else {}
  }

  /** The labels columns hold every label the records of [lo, hi) assign into, and beyond d0's labels no other. */
  ghost predicate LabelsAgree(d0: Dataset, columns: seq<string>, lo: nat, hi: nat, process: Processor)
  {
    && (forall j, c :: lo <= j < hi && c in Writes(d0, j, process) ==> c in columns)
    && (forall c :: c in columns ==> c in d0.columns || exists j :: lo <= j < hi && c in Writes(d0, j, process))
  }

  /** Adding the labels of record j extends the agreement on labels by one row. */
  lemma LabelsAgreeStep(d0: Dataset, columns: seq<string>, next: seq<string>, lo: nat, j: nat, process: Processor)
    requires lo <= j && LabelsAgree(d0, columns, lo, j, process)
    requires forall c :: c in next <==> c in columns || c in Writes(d0, j, process)
    ensures LabelsAgree(d0, next, lo, j + 1, process)
  {
    forall c | c in next
      ensures c in d0.columns || exists j' :: lo <= j' < j + 1 && c in Writes(d0, j', process)
    {
      if c !in columns {
        assert c in Writes(d0, j, process);
      } else if c !in d0.columns {
        var j' :| lo <= j' < j && c in Writes(d0, j', process);
      }
    }
  }

  /**
   * Table d is table d0 with exactly the rows [lo, hi) processed: its labels
   * are d0's followed by those the records of [lo, hi) assign into, and no other.
   */
  ghost predicate Agrees(d0: Dataset, d: Dataset, lo: nat, hi: nat, process: Processor)
  {
    && |d.rows| == |d0.rows|
    && d0.columns <= d.columns && (IdColumn !in d0.columns ==> IdColumn !in d.columns)
    && LabelsAgree(d0, d.columns, lo, hi, process)
    && forall j :: 0 <= j < |d0.rows| ==>
         d.rows[j] == if lo <= j < hi then Processed(d0, j, process) else d0.rows[j]
  }

  /** A row not yet processed gets the record the original table would give it, and only it changes. */
  lemma RecordStepAgrees(d0: Dataset, d: Dataset, lo: nat, j: nat, process: Processor)
    requires lo <= j < |d0.rows|
    requires Agrees(d0, d, lo, j, process)
    ensures RecordFor(d, j, process) == RecordFor(d0, j, process)
    ensures RecordStep(d, j, process).1 ==> Agrees(d0, RecordStep(d, j, process).0, lo, j + 1, process)
  {
    assert d.rows[j] == d0.rows[j];
    var step := RecordStep(d, j, process);
    if step.1 {
      assert step.0 == WriteFields(d, j, RecordFor(d0, j, process).pairs);
      LabelsAgreeStep(d0, d.columns, step.0.columns, lo, j, process);
    }
  }

  /** A window completes exactly when none of its records raises, and then it has processed every row in it. */
  lemma {:induction false} BatchStepAgrees(d0: Dataset, d: Dataset, lo: nat, j: nat, hi: nat, process: Processor)
    requires lo <= j <= hi <= |d0.rows|
    requires Agrees(d0, d, lo, j, process)
    ensures BatchStep(d, j, hi, process).1 <==> forall k :: j <= k < hi ==> RecordFor(d0, k, process).Fields?
    ensures BatchStep(d, j, hi, process).1 ==> Agrees(d0, BatchStep(d, j, hi, process).0, lo, hi, process)
    decreases hi - j
  {
    if j < hi {
      RecordStepAgrees(d0, d, lo, j, process);
      var step := RecordStep(d, j, process);
      if step.1 {
        BatchStepAgrees(d0, step.0, lo, j + 1, hi, process);
      } else {
        assert RecordFor(d0, j, process).Raised?;
      }
    }
  }

  /** A completed loop from index < |d0.rows| passes its first window and goes on completed. */
  lemma CompletedWindow(d0: Dataset, d: Dataset, start: nat, index: nat, process: Processor, path: string)
    requires start <= index < |d0.rows|
    requires Agrees(d0, d, start, index, process)
    requires RunFrom(d, index, process, path).completed
    ensures var hi := MinNat(index + BatchSize, |d0.rows|);
      var step := BatchStep(d, index, hi, process);
      var rest := RunFrom(step.0, index + BatchSize, process, path);
      && step.1 && Agrees(d0, step.0, start, hi, process)
      && (forall k :: index <= k < hi ==> RecordFor(d0, k, process).Fields?)
      && rest.completed && RunFrom(d, index, process, path).data == rest.data
      && RunFrom(d, index, process, path).flushes == [Snapshot(path, step.0)] + rest.flushes
  {
    BatchStepAgrees(d0, d, start, index, MinNat(index + BatchSize, |d0.rows|), process);
    RunFromUnfold(d, index, process, path);
  }

  /** The windows from index on: the first one, then those from the next index on. */
  lemma WindowsCons(index: nat, n: nat)
    requires index < n
    ensures Windows(index, n) == [(index, MinNat(index + BatchSize, n))] + Windows(index + BatchSize, n)
  {
  }

  /** A loop from index on that completes met no raising record. */
  lemma {:induction false} RunFromCompletedNoRaise(d0: Dataset, d: Dataset, start: nat, index: nat, process: Processor, path: string)
    requires start <= index
    requires Agrees(d0, d, start, MinNat(index, |d0.rows|), process)
    requires RunFrom(d, index, process, path).completed
    ensures forall k :: index <= k < |d0.rows| ==> RecordFor(d0, k, process).Fields?
    decreases |d0.rows| - index
  {
    var n := |d0.rows|;
    if index < n {
      var step := BatchStep(d, index, MinNat(index + BatchSize, n), process);
      CompletedWindow(d0, d, start, index, process, path);
      RunFromCompletedNoRaise(d0, step.0, start, index + BatchSize, process, path);
    }
  }

  /** The loop from index on completes exactly when no remaining record raises. */
  lemma RunFromCompletes(d0: Dataset, d: Dataset, start: nat, index: nat, process: Processor, path: string)
    requires start <= index
    requires Agrees(d0, d, start, MinNat(index, |d0.rows|), process)
    ensures RunFrom(d, index, process, path).completed <==>
      forall k :: index <= k < |d0.rows| ==> RecordFor(d0, k, process).Fields?
  {
    if RunFrom(d, index, process, path).completed {
      RunFromCompletedNoRaise(d0, d, start, index, process, path);
    } else {
      RunFromStops(d0, d, start, index, process, path);
    }
  }

  /** A completed loop from index on flushes once per window and once more at the end. */
  lemma {:induction false} RunFromFlushCount(d: Dataset, index: nat, process: Processor, path: string)
    requires RunFrom(d, index, process, path).completed
    ensures |RunFrom(d, index, process, path).flushes| == |Windows(index, |d.rows|)| + 1
    decreases |d.rows| - index
  {
    if index < |d.rows| {
      var step := BatchStep(d, index, MinNat(index + BatchSize, |d.rows|), process);
      RunFromUnfold(d, index, process, path);
      RunFromFlushCount(step.0, index + BatchSize, process, path);
    }
  }

  /** A completed loop from index on has processed every row from start on. */
  lemma {:induction false} RunFromFinal(d0: Dataset, d: Dataset, start: nat, index: nat, process: Processor, path: string)
    requires start <= index
    requires Agrees(d0, d, start, MinNat(index, |d0.rows|), process)
    requires RunFrom(d, index, process, path).completed
    ensures Agrees(d0, RunFrom(d, index, process, path).data, start, |d0.rows|, process)
    decreases |d0.rows| - index
  {
    var n := |d0.rows|;
    if index < n {
      var step := BatchStep(d, index, MinNat(index + BatchSize, n), process);
      CompletedWindow(d0, d, start, index, process, path);
      RunFromFinal(d0, step.0, start, index + BatchSize, process, path);
    } else {
      assert MinNat(index, n) == n;
    }
  }

  /** Each flush k that was written holds table d0 with the rows from start to the end of window k processed. */
  ghost predicate FlushesAgree(d0: Dataset, flushes: seq<Snapshot>, ws: seq<(nat, nat)>, start: nat, process: Processor)
  {
    forall k :: 0 <= k < |flushes| && k < |ws| ==> Agrees(d0, flushes[k].data, start, ws[k].1, process)
  }

  /** A window's flush in front of the later windows' flushes. */
  lemma FlushesAgreeCons(d0: Dataset, e: Dataset, rest: seq<Snapshot>, w: (nat, nat), ws: seq<(nat, nat)>,
                         start: nat, process: Processor, path: string)
    requires Agrees(d0, e, start, w.1, process) && FlushesAgree(d0, rest, ws, start, process)
    ensures FlushesAgree(d0, [Snapshot(path, e)] + rest, [w] + ws, start, process)
  {
    var flushes := [Snapshot(path, e)] + rest;
    forall k | 0 <= k < |flushes| && k < |ws| + 1
      ensures Agrees(d0, flushes[k].data, start, ([w] + ws)[k].1, process)
    {
      if k > 0 {
        assert flushes[k] == rest[k - 1];
        assert ([w] + ws)[k] == ws[k - 1];
      }
    }
  }

  /**
   * Whether or not the loop from index on completes, the flush after window k
   * holds the rows processed up to that window's end and the original rows after it.
   */
  lemma {:induction false} RunFromFlushes(d0: Dataset, d: Dataset, start: nat, index: nat, process: Processor, path: string)
    requires start <= index
    requires Agrees(d0, d, start, MinNat(index, |d0.rows|), process)
    ensures FlushesAgree(d0, RunFrom(d, index, process, path).flushes, Windows(index, |d0.rows|), start, process)
    decreases |d0.rows| - index
  {
    var n := |d0.rows|;
    if index < n {
      var hi := MinNat(index + BatchSize, n);
      BatchStepAgrees(d0, d, start, index, hi, process);
      var step := BatchStep(d, index, hi, process);
      RunFromUnfold(d, index, process, path);
      if step.1 {
        var rest := RunFrom(step.0, index + BatchSize, process, path);
        RunFromFlushes(d0, step.0, start, index + BatchSize, process, path);
        FlushesAgreeCons(d0, step.0, rest.flushes, (index, hi), Windows(index + BatchSize, n), start, process, path);
        WindowsCons(index, n);
      }
    } else {
      assert Windows(index, n) == [];
    }
  }

  /**
   * The loop from row `from` on stopped in window w: every record before the
   * window yields fields and some record in it raises.
   */
  ghost predicate StopsIn(d0: Dataset, from: nat, w: (nat, nat), process: Processor)
  {
    && from <= w.0 <= w.1 <= |d0.rows|
    && (forall j :: from <= j < w.0 ==> RecordFor(d0, j, process).Fields?)
    && (exists j :: w.0 <= j < w.1 && RecordFor(d0, j, process).Raised?)
  }

  /** A window whose records all yield fields, in front of the window the loop stopped in. */
  lemma StopsInCons(d0: Dataset, from: nat, mid: nat, w: (nat, nat), process: Processor)
    requires from <= mid && StopsIn(d0, mid, w, process)
    requires forall j :: from <= j < mid ==> RecordFor(d0, j, process).Fields?
    ensures StopsIn(d0, from, w, process)
  {
  }

  /** The loop from index on, having flushed count tables, stopped in the next window. */
  ghost predicate StoppedAt(d0: Dataset, index: nat, count: nat, process: Processor)
  {
    var ws := Windows(index, |d0.rows|);
    count < |ws| && StopsIn(d0, index, ws[count], process)
  }

  /** A raise in the first window from index on stops the loop in that window. */
  lemma StopsInFirst(d0: Dataset, index: nat, process: Processor)
    requires index < |d0.rows|
    requires !forall j :: index <= j < MinNat(index + BatchSize, |d0.rows|) ==> RecordFor(d0, j, process).Fields?
    ensures StoppedAt(d0, index, 0, process)
  {
    WindowsCons(index, |d0.rows|);
  }

  /** A first window without raises puts the window the loop stopped in one place later. */
  lemma StopsInNext(d0: Dataset, index: nat, m: nat, process: Processor)
    requires index < |d0.rows|
    requires forall j :: index <= j < MinNat(index + BatchSize, |d0.rows|) ==> RecordFor(d0, j, process).Fields?
    requires StoppedAt(d0, index + BatchSize, m, process)
    ensures StoppedAt(d0, index, m + 1, process)
  {
    var n := |d0.rows|;
    var ws' := Windows(index + BatchSize, n);
    WindowsCons(index, n);
    assert ws'[0].0 == index + BatchSize;
    StopsInCons(d0, index, index + BatchSize, ws'[m], process);
    assert Windows(index, n)[m + 1] == ws'[m];
  }

  /** The first window of the loop from index on: a stop with no flush, or one flush and the rest of the loop. */
  lemma FirstWindowOutcome(d0: Dataset, d: Dataset, start: nat, index: nat, process: Processor, path: string)
    requires start <= index < |d0.rows|
    requires Agrees(d0, d, start, index, process)
    ensures var hi := MinNat(index + BatchSize, |d0.rows|);
      var step := BatchStep(d, index, hi, process);
      var r := RunFrom(d, index, process, path);
      var rest := RunFrom(step.0, index + BatchSize, process, path);
      && (!step.1 ==> !r.completed && |r.flushes| == 0 && StoppedAt(d0, index, 0, process))
      && (step.1 ==>
            && Agrees(d0, step.0, start, MinNat(index + BatchSize, |d0.rows|), process)
            && (forall j :: index <= j < hi ==> RecordFor(d0, j, process).Fields?)
            && r.completed == rest.completed && |r.flushes| == |rest.flushes| + 1)
  {
    var hi := MinNat(index + BatchSize, |d0.rows|);
    BatchStepAgrees(d0, d, start, index, hi, process);
    RunFromUnfold(d, index, process, path);
    if !BatchStep(d, index, hi, process).1 {
      StopsInFirst(d0, index, process);
    }
  }

  /**
   * A loop from index on that stops early has flushed exactly the windows
   * before the one it stopped in.
   */
  lemma {:induction false} RunFromStops(d0: Dataset, d: Dataset, start: nat, index: nat, process: Processor, path: string)
    requires start <= index
    requires Agrees(d0, d, start, MinNat(index, |d0.rows|), process)
    ensures !RunFrom(d, index, process, path).completed ==>
      StoppedAt(d0, index, |RunFrom(d, index, process, path).flushes|, process)
    decreases |d0.rows| - index
  {
    if index < |d0.rows| {
      FirstWindowOutcome(d0, d, start, index, process, path);
      var step := BatchStep(d, index, MinNat(index + BatchSize, |d0.rows|), process);
      if step.1 {
        var rest := RunFrom(step.0, index + BatchSize, process, path);
        RunFromStops(d0, step.0, start, index + BatchSize, process, path);
        if !rest.completed {
          StopsInNext(d0, index, |rest.flushes|, process);
          assert |RunFrom(d, index, process, path).flushes| == |rest.flushes| + 1;
        }
      }
    }
  }

  /**
   * A run completes exactly when no record from the checkpoint on raises.
   * Then every row from the checkpoint on holds its own record's fields (even
   * rows that were already complete), every row before it is unchanged, and
   * there is one flush per window plus the final one. Whether or not it
   * completes, the flush after window k holds the processed rows up to that
   * window's end and the original rows after it; a run that stops has flushed
   * exactly the windows before the one holding the first raising record.
   */
  lemma RunProcessesPending(d: Dataset, process: Processor, path: string)
    ensures var start := FirstEmptyIndex(d);
      var r := Run(d, process, path);
      var ws := Windows(start, |d.rows|);
      && (r.completed <==> forall k :: start <= k < |d.rows| ==> RecordFor(d, k, process).Fields?)
      && (r.completed ==> |r.flushes| == |ws| + 1 && r.flushes[|ws|].data == r.data)
      && (r.completed ==> forall j :: 0 <= j < |d.rows| ==>
            r.data.rows[j] == if start <= j then Processed(d, j, process) else d.rows[j])
      && (r.completed ==> forall j, c :: start <= j < |d.rows| && c in Writes(d, j, process) ==> c in r.data.columns)
      && (r.completed ==> forall c :: c in r.data.columns ==>
            c in d.columns || exists j :: start <= j < |d.rows| && c in Writes(d, j, process))
      && (forall k :: 0 <= k < |r.flushes| && k < |ws| ==> Agrees(d, r.flushes[k].data, start, ws[k].1, process))
      && (!r.completed ==> |r.flushes| < |ws| && StopsIn(d, start, ws[|r.flushes|], process))
  {
    var start := FirstEmptyIndex(d);
    assert Agrees(d, d, start, MinNat(start, |d.rows|), process);
    RunFromCompletes(d, d, start, start, process, path);
    RunFromFlushes(d, d, start, start, process, path);
    RunFromStops(d, d, start, start, process, path);
    if Run(d, process, path).completed {
      RunFromFlushCount(d, start, process, path);
      RunFromFinal(d, d, start, start, process, path);
    }
  }


  /**
   * Failure isolation: in a completed run a row whose record yields no fields
   * keeps its old contents, while the other rows still get their records.
   */
  lemma EmptyRecordKeepsRow(d: Dataset, process: Processor, path: string, j: nat)
    requires j < |d.rows| && IdColumn in d.columns
    requires process(Cell(d.rows[j], IdColumn)) == Fields([])
    requires Run(d, process, path).completed
    ensures Run(d, process, path).data.rows[j] == d.rows[j]
  {
    RunProcessesPending(d, process, path);
  }

  /**
   * A fetched page's record in a completed run: the final table has a STATUS
   * column, the row's STATUS is the page's "Status" entry (or "N/A"), and read
   * back the row is pending exactly when that value is a NaN spelling.
   */
  lemma FetchedRowStatus(d: Dataset, process: Processor, path: string, j: nat, m: map<string, string>)
    requires FirstEmptyIndex(d) <= j < |d.rows| && IdColumn in d.columns
    requires process(Cell(d.rows[j], IdColumn)) == Fields(Project(m))
    requires Run(d, process, path).completed
    ensures StatusColumn in Run(d, process, path).data.columns
    ensures Cell(Run(d, process, path).data.rows[j], StatusColumn) == Some(Lookup(m, Title(StatusColumn)))
    ensures Incomplete(Reload(Run(d, process, path).data).rows[j]) <==> Lookup(m, Title(StatusColumn)) in NaStrings
  {
    RunProcessesPending(d, process, path);
    var fs := Project(m);
    assert fs[0].0 == StatusColumn;
    assert StatusColumn in Writes(d, j, process);
    assert forall k :: 0 < k < |fs| ==> fs[k].0 != fs[0].0;
    WriteRowLastWins(d.rows[j], fs, 0);
    ReloadIncomplete(Run(d, process, path).data, j);
  }

  /**
   * A page with no "Status" label writes "N/A" into STATUS, and read_csv reads
   * that back as NaN: after a completed run the row is pending again, and the
   * next run over the written file resumes at or before it.
   */
  lemma MissingStatusReopens(d: Dataset, process: Processor, path: string, j: nat, m: map<string, string>)
    requires FirstEmptyIndex(d) <= j < |d.rows| && IdColumn in d.columns
    requires process(Cell(d.rows[j], IdColumn)) == Fields(Project(m)) && Title(StatusColumn) !in m
    requires Run(d, process, path).completed
    ensures StatusColumn in Reload(Run(d, process, path).data).columns
    ensures Incomplete(Reload(Run(d, process, path).data).rows[j])
    ensures FirstEmptyIndex(Reload(Run(d, process, path).data)) <= j
  {
    FetchedRowStatus(d, process, path, j, m);
  }

  /**
   * A first run over a table without STATUS, where rows [0, j) get pages with a
   * real status and the request for row j fails: the next run over the written
   * file resumes exactly at row j.
   */
  lemma ResumesAtFailedFetch(d: Dataset, process: Processor, path: string, j: nat, pages: nat -> map<string, string>)
    requires StatusColumn !in d.columns && IdColumn in d.columns
    requires 0 < j < |d.rows| && Run(d, process, path).completed
    requires forall i :: 0 <= i < j ==>
      process(Cell(d.rows[i], IdColumn)) == Fields(Project(pages(i))) && Lookup(pages(i), Title(StatusColumn)) !in NaStrings
    requires process(Cell(d.rows[j], IdColumn)) == Fields([]) && Cell(d.rows[j], StatusColumn).None?
    ensures FirstEmptyIndex(Reload(Run(d, process, path).data)) == j
  {
    var r := Run(d, process, path).data;
    FetchedRowStatus(d, process, path, 0, pages(0));
    forall i | 0 <= i < j
      ensures !Incomplete(Reload(r).rows[i])
    {
      FetchedRowStatus(d, process, path, i, pages(i));
    }
    EmptyRecordKeepsRow(d, process, path, j);
    ReloadIncomplete(r, j);
  }
}
