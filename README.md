# FAA aircraft-registry scraper, modelled in Dafny

The scraper reads a CSV table of aircraft registration numbers (the
`N-NUMBER` column). For each row it fetches the FAA registry page, pulls
eleven fields out of the HTML tables on that page, and writes them into the
row. It flushes the whole table back to disk after every window of twenty
rows and once more at the end. A rerun resumes at the first row whose
`STATUS` is still missing or empty.

The model covers the `Scraper` class of `main.py`:

- `options.dfy` (`Options`): the `Option` type. `None` stands for a pandas NaN cell and for a failed request.
- `schema.dfy` (`Schema`): the eleven-field schema, the `STATUS` and `N-NUMBER` column names, the `"N/A"` sentinel, and Python's `str.title()` over ASCII.
- `frames.dfy` (`Frames`): the table as a value (`Dataset`: column labels plus rows, each row a map from label to cell). It also holds `df.at[i, c] = v` as `SetCell`, and writing a field list into one row (`WriteFields`). Two classes hold mutable state:
  - `Frame` is the in-memory DataFrame, with its rows in an `array`.
  - `Disk` records every `to_csv` as a snapshot of the table written.
- `checkpoint.dfy` (`Checkpoint`): `get_first_empty_index`, and what `read_csv` makes of a flushed table when the next run reads it back (`Reload`).
- `extraction.dfy` (`Extraction`): `process_record` after the HTML has been parsed into tables. It covers:
  - the choice of one or three tables;
  - `process_dataframe`, which splits a table into two label/value halves;
  - the `dict.update` merge;
  - the projection onto the schema under title-cased labels.

  `Extract` is the function and `ProcessRecord` the method with the source's two loops.
- `batches.dfy` (`Batches`): the batch loop of `gather_with_concurrency` as functions (`RunFrom`, `Run`), plus the lemmas about it. The loop takes a record processor (the work of one task) as a parameter, so its lemmas hold for any processor.
- `pipeline.dfy` (`Pipeline`): the `Scraper` class.
  - Its constructor defaults the output path.
  - `WriteRecord` is `write_record`, with a loop of cell assignments.
  - `GatherWindow` is one `asyncio.gather` window, and `ProcessWindow` is one pass of the for loop.
  - `GatherWithConcurrency` runs the loop in place on a `Frame` and a `Disk`. It is proved to end with exactly the table and the flush log that `Batches.Run` specifies.
  - The methods fetch with the oracle and call `ProcessRecord`. Their contracts are stated with a ghost parameter `process`, the task as a function of the registration-number cell. `Performs(process, fetch)` requires it to be "fetch, then `Extract`". `Scrape(fetch)` is such a processor (`Pipeline.ScrapePerforms`).

The registry is a parameter, `Fetcher`. It maps a registration-number cell to `None` when the request failed, or to the list of tables that BeautifulSoup and `read_html` produced. Each table is given as its columns, each column read top to bottom. After the transposition at `main.py:90-98`, column 0 gives the labels and column 1 their values, and columns 2 and 3 do the same. `read_html` never returns an empty list: on a page with no `devkit-table` it raises at main.py:113. The oracle's empty table list stands for that raise.

The asyncio fan-out inside a window is modelled as a sequential loop over the window. Every task writes only its own row, and `IdColumn` is read before any write. So the order of the tasks does not change the table they produce: `Batches.RecordStepAgrees` and `Batches.BatchStepAgrees` prove that each row gets the record the original table gives it.

## Model

| member | source | states |
|---|---|---|
| Schema.Title | main.py:127 | no contract of its own; what `column.title()` does is stated by `Schema.TitleWordStarts`, and how the result is used by `Extraction.Project` and `Extraction.LabelsMatchExactly` |
| Schema.TitleWordStarts | main.py:127 | `column.title()` keeps the letters, upper-cases exactly the letters that start a word, lower-cases the other letters and keeps every other character |
| Pipeline.OutputPath | main.py:28-31 | the output path is the input path when no output file or an empty one is given, and the given path otherwise |
| Pipeline.Scraper.constructor | main.py:26-37 | the scraper keeps the input path, the defaulted output path, the eleven schema columns and the timeout |
| Checkpoint.FirstEmptyIndex | main.py:140-146 | the checkpoint is 0 without a STATUS column. Otherwise every row before it has a non-empty STATUS and the row at it (if any) has a missing or empty STATUS. It always lies in [0, row count] |
| Checkpoint.CheckpointOfPrefix | main.py:143-146 | with STATUS present, complete rows [0, k) followed by incomplete rows give exactly the checkpoint k |
| Checkpoint.CheckpointMonotone | main.py:140-146 | a table that keeps the STATUS column and every row before the old checkpoint has its checkpoint at or after the old one |
| Checkpoint.Reload | main.py:156 | reading a flushed table back keeps its column labels and its row count |
| Checkpoint.ReloadIncomplete | main.py:143-146 | a row read back is pending exactly when its STATUS was NaN or a string `read_csv` reads as NaN by default (the empty string, "N/A", "NA", "null", "nan" and the rest of its default list) |
| Checkpoint.ReloadCheckpoint | main.py:140-146 | the checkpoint of a table read back is never after the checkpoint of the table written, and equals it exactly when no complete row before that checkpoint has a STATUS that reads back as NaN |
| Checkpoint.NotAvailableReopens | main.py:143-146 | a row whose STATUS was written as "N/A" is pending once the table is read back, so the checkpoint read back is at or before that row |
| Extraction.ProcessDataframe | main.py:88-102 | no contract of its own; its behaviour is stated by `Extraction.WideTableHalves` (four or more columns) and `Extraction.FailedTableIsDropped` (fewer than three columns) |
| Extraction.SelectTables | main.py:113-120 | an empty table list stands for `read_html` raising "No tables found" at main.py:113, and selects nothing. Otherwise the tables read are a prefix of the parsed ones: one table when at most two were parsed, three when three or more were |
| Extraction.ExtractReadsFirstTable | main.py:117-120 | with one or two parsed tables, only the first decides the outcome |
| Extraction.ExtractReadsFirstThree | main.py:117-120 | with three or more parsed tables, only the first three decide the outcome |
| Extraction.HalvesOf | main.py:119-122 | no contract of its own; stated by `Extraction.HalvesOfAppend`, `Extraction.FailedTableIsDropped` and `Extraction.MergeFromFlat` |
| Extraction.HalvesOfAppend | main.py:119-122 | tables are processed independently: the halves of a concatenation of table lists are the concatenation of their halves |
| Extraction.FailedTableIsDropped | main.py:88-122 | a table that `process_dataframe` rejects (fewer than three columns) contributes no half, and the tables around it still contribute theirs |
| Extraction.WideTableHalves | main.py:88-99 | a table of four or more columns yields the pairs of column 0 labels with column 1 values, followed by those of column 2 with column 3 |
| Extraction.Update | main.py:124-125 | no contract of its own; stated by `Extraction.UpdateAppend`, `Extraction.UpdateKeeps` and `Extraction.UpdateLastWins` |
| Extraction.MergeFrom | main.py:124-125 | no contract of its own; stated by `Extraction.MergeFromFlat`, which reduces it to one `Update` or a raise |
| Extraction.UpdateAppend | main.py:124-125 | updating the dict with two pair lists in turn is updating it with their concatenation |
| Extraction.UpdateKeeps | main.py:124-125 | a label no pair names keeps its entry, or stays absent |
| Extraction.UpdateLastWins | main.py:124-125 | after the updates a label holds the value of the last pair naming it, so a later half overrides an earlier one |
| Extraction.MergeFromFlat | main.py:124-125 | the merge loop raises exactly when some half has no value row. Otherwise it equals one update with all pairs of all halves, in order |
| Extraction.Project | main.py:127 | the result has exactly the eleven schema fields in schema order. Each holds the merged dict's entry under the field's title-cased name, or "N/A" when that label is absent |
| Extraction.LabelsMatchExactly | main.py:127 | page labels are compared exactly with the title-cased schema name: a page labelling the status "Status" fills STATUS, and one labelling it "STATUS" leaves it "N/A" |
| Extraction.ProjectMerged | main.py:124-127 | field f holds the value of the last merged pair labelled with its title, or "N/A" when no pair is |
| Extraction.Extract | main.py:104-127 | a failed request yields an empty field list. A page that does not raise yields the eleven schema fields in order |
| Extraction.ExtractRaises | main.py:113-125 | process_record raises on a fetched page exactly when `read_html` finds no table (main.py:113; the empty list) or a half it reads has no value row (a three-column table) |
| Extraction.ExtractClean | main.py:113-127 | on a page whose halves all have a value row, the fields are the projection of the in-order update with every pair of the selected tables |
| Extraction.ProcessRecord | main.py:104-127 | the two accumulating loops over the tables and over `df_list` compute exactly `Extract` |
| Frames.WriteFields | main.py:152-153 | writing the fields into row i changes no other row, and row i gets the fields in order. Existing column labels stay, and only the fields' own labels are added, all of them |
| Frames.SetCell | main.py:153 | no contract of its own; `df.at[i, c] = v` on a value. `Frames.Frame.SetAt` is proved to act as it, and `Frames.WriteFields` states the effect of a sequence of them |
| Frames.WriteRowKeeps | main.py:152-153 | a column that no returned field names keeps its cell |
| Frames.WriteRowLastWins | main.py:152-153 | a field's column holds the field's value unless a later field names the same column |
| Frames.Frame.constructor | main.py:156 | the frame holds the loaded table |
| Frames.Frame.SetAt | main.py:153 | `df.at[i, c] = v` sets that one cell and appends the label when it is new |
| Frames.Frame.ToCsv | main.py:170 | a flush appends the whole current table, with its path, to the disk's log |
| Batches.Windows | main.py:164-165 | window k starts 20·k rows after the checkpoint and ends at min(start + 20, n). The windows stop at the first start that is not below n |
| Batches.WindowsPartition | main.py:164-166 | the windows are non-empty, at most 20 rows long, increasing and pairwise disjoint. Together they cover exactly [checkpoint, n) |
| Batches.BatchStep | main.py:166-167 | a window keeps the row count and the existing column labels |
| Batches.BatchStepKeeps | main.py:166-167 | a window never changes a row outside it |
| Batches.RecordStep | main.py:149-153 | no contract of its own; stated by `Batches.RecordStepAgrees`, `Pipeline.FailedFetchLeavesTable`, and by `Pipeline.Scraper.WriteRecord`, which is proved to act as it |
| Batches.RecordStepAgrees | main.py:149-153 | a row not yet processed gets the record that the original table gives it, whatever the earlier tasks of the window wrote |
| Batches.BatchStepAgrees | main.py:166-167 | a window completes exactly when none of its records raises, and then every row of the window holds its own record. The table's labels are then the old ones, every label a record of the window assigns into, and no other |
| Batches.RunFrom | main.py:162-175 | the loop keeps the row count. When it completes, the last flush holds the final table |
| Batches.RunFromKeeps | main.py:164-172 | rows before the starting index and the existing columns are kept in memory and in every flush, and every flush goes to the output path |
| Batches.Run | main.py:155-175 | no contract of its own; stated by `Batches.RunProcessesPending`, `Batches.ResumeNeverGoesBack` and `Batches.EmptyRecordKeepsRow`, and `Pipeline.Scraper.GatherWithConcurrency` is proved to act as it |
| Batches.ResumeNeverGoesBack | main.py:155-175 | a run leaves every row before the checkpoint untouched, and the checkpoint of the final table and of every flushed table is at or after the one it started from |
| Batches.CompletedWindow | main.py:164-170 | in a completed loop, the next window completes, processes its rows and is flushed before the rest of the loop |
| Batches.RunFromCompletes | main.py:162-175 | the loop from an index completes exactly when no record from that index on raises |
| Batches.RunFromFlushCount | main.py:164-172 | a completed loop flushes once per window and once more at the end |
| Batches.RunFromFinal | main.py:164-172 | a completed loop leaves every row from the start on processed by its own record, and its labels are the loaded ones plus exactly those the records from the start on assign into |
| Batches.RunFromFlushes | main.py:164-170 | in any run, completed or stopped, the flush after window k holds the rows processed up to that window's end and the original rows after it, with the loaded labels plus exactly the labels those processed records assign into |
| Batches.RunFromStops | main.py:164-175 | a loop that stops has flushed fewer tables than there are windows, and it stopped in the window after the last flushed one: every record before that window yields fields and some record in it raises |
| Batches.RunProcessesPending | main.py:155-175 | a run completes exactly when no record from the checkpoint on raises. A completed run has rows before the checkpoint unchanged and every later row holding its record. Its final labels are the loaded ones plus exactly the labels those records assign into. It flushes once per window plus a final flush of the final table. In every run the flush after window k holds exactly the rows processed up to that window. A stopped run has flushed one table per window before the window it stopped in, where a record raised after all earlier records yielded fields |
| Batches.EmptyRecordKeepsRow | main.py:152-153 | in a completed run a row whose record has no fields keeps its old contents |
| Batches.FetchedRowStatus | main.py:127-156 | in a completed run a row whose page was fetched puts a STATUS column into the final table, its STATUS is the page's "Status" entry or "N/A", and read back it is pending exactly when that value is a NaN spelling |
| Batches.MissingStatusReopens | main.py:127-156 | in a completed run a row whose page has no "Status" label gets STATUS "N/A", which reads back as NaN: the table read back has a STATUS column, the row is pending again, and the next run over the written file resumes at or before it |
| Batches.ResumesAtFailedFetch | main.py:104-175 | a first run over a table without STATUS whose rows before j get pages with a real status and whose request for row j fails: the next run over the written file resumes exactly at row j |
| Pipeline.FailedFetchLeavesTable | main.py:104-107 | write_record after a failed request leaves the whole table unchanged and does not raise |
| Pipeline.FailedFetchKeepsRow | main.py:104-107 | in a completed run a row whose request failed keeps its old contents, so it stays incomplete for the next run |
| Pipeline.Scraper.WriteRecord | main.py:149-153 | the row's registration number is read, its page processed and every returned field assigned into that row. False is returned, with no write, when the N-NUMBER column is missing or process_record raised |
| Pipeline.Scraper.GatherWindow | main.py:166-167 | running the window's tasks leaves exactly the table `BatchStep` gives, and reports whether any task raised |
| Pipeline.Scraper.ProcessWindow | main.py:164-170 | one pass of the for loop: the window's table, plus one flush of it to the output path when no task raised |
| Pipeline.Scraper.GatherWithConcurrency | main.py:155-175 | the in-place loop ends with exactly the table of `Batches.Run` on the loaded table, and appends to the disk exactly that run's flushes. The properties of that run are the Batches lemmas above |

## Left out

- `fetch_html`, BeautifulSoup and `pd.read_html` (main.py:49-73, 109-113) are network I/O and foreign parsers. They are one oracle parameter (`Fetcher`), and the URL, headers, form data and `timeout` are not modelled. The timeout is stored by the constructor and never used by the source either.
- `pd.read_csv` and the CSV format of `to_csv` (main.py:156, 170, 172) are file I/O. The loaded table is a parameter, row labels are positions (a RangeIndex), and a flush is a snapshot of the whole table in `Disk.writes`.
- Checkpoint.Reload: reading a written table back is modelled only as `read_csv`'s default NaN strings. Its type inference (`low_memory=False` turns numeric-looking columns into numbers) is not modelled. A rerun reads the written file only when the output path defaulted to the input path.
- Batches.ResumeNeverGoesBack: states the checkpoint of the tables as held in memory and as flushed, not as read back. Read back, a complete row whose STATUS is a NaN spelling such as "N/A" is pending again, so the next run's checkpoint can lie before it (`Checkpoint.ReloadCheckpoint`, `Batches.MissingStatusReopens`).
- Frames.Frame.ToCsv: a flush never fails in the model. In the source an exception from `to_csv` at main.py:170 or 172 is caught by the `except` at main.py:174 and ends the run like a raising record.
- Logging (`setup_logger` and every `logger` call) and `run_scraper`'s event loop (main.py:40-47, 177-181) are console output and driver code.
- The `except` at main.py:174-175 only logs. It is modelled as the end of the run with no further flush.
- Batches.BatchStep: asyncio concurrency is modelled as a sequential loop over the window that stops at the first task that raises. When a task raises, `gather` also lets the other tasks of the window finish in memory. The model then leaves only the earlier rows written. Nothing is flushed after a raise, so the flush log, the only observable result, is the same.
- Extraction.Extract: cells are strings. A NaN cell that `read_html` puts in a value row is not distinguished from a string, and non-string header labels inferred by `read_html` are not modelled.
- Extraction.MergeFromFlat: a half with two equal labels makes `df.loc[0]` a Series with a duplicated index. pandas then updates that key with a Series, while the model keeps the last value.
- Schema.TitleWordStarts: `str.title()` is modelled over ASCII letters only. Other characters are kept as they are.
- `convert.py` is a separate format-conversion script, not part of the scraper's loop.

## Behaviour a reader might not expect

- When a record raises, the handler at main.py:174-175 logs "Wrote extracted records into file." but writes nothing. The file holds only the flushes made before the raising window. `Batches.RunFromStops` and `Batches.RunProcessesPending` state which flushes a stopped run made.
- Extraction failures are not all isolated per record. Two cases raise out of `process_record` and end the whole run:
  - a page with no `devkit-table`: `soup.select` finds nothing, `read_html` is handed the string "[]" and raises "No tables found" at main.py:113 (so the `data[0]` at main.py:120 is never reached with an empty list);
  - a selected three-column table, whose second half has no value row, so `df.loc[0]` raises at main.py:125.

  `Extraction.ExtractRaises` states exactly when this happens, and `Batches.RunFromCompletes` shows that a single such record stops the run.
- The loop at main.py:164 processes every row from the checkpoint on, including complete rows after it (`Batches.RunProcessesPending`). Only rows before the checkpoint are guaranteed untouched (`Batches.ResumeNeverGoesBack`).
- A failed request does not write "N/A": `process_record` returns an empty dict at main.py:105-107, and the row is left as it was (`Pipeline.FailedFetchLeavesTable`). "N/A" appears only for schema fields missing from a page that was fetched (main.py:127).
- Labels are matched exactly against the title-cased schema name (main.py:127). A page that labels a field "STATUS" or "status" instead of "Status" leaves it "N/A" (`Extraction.LabelsMatchExactly`).
- A STATUS written as "N/A" reads back as NaN at main.py:156, so that row is scraped again by the next run (`Batches.MissingStatusReopens`).
