# Advanced VLOOKUP tool: a Dafny model of its core

The tool loads Excel workbooks, picks a header row for every sheet, and
left-joins a main table with any number of lookup tables on key columns.
It fills the gaps with `"N/A"`, reports progress, and keeps the main key
plus the return columns the user selected. This project models that core
of `advanced_vlookup_tool.py` and proves what it promises.

- `Tables.dfy`: cells, tables (DataFrames) and shared sequence and string
  helpers.
  - A `Table` is a sequence of column labels and a sequence of rows,
    aligned by position, so labels may repeat.
  - A `Cell` is missing, a string, a number, or another value. Each cell
    carries the text `str()` prints for it.
- `HeaderDetection.dfy`: `detect_header_row`. It scores the first
  `min(10, n)` rows and picks the first maximum.
  - The discrete bonuses are exact reals.
  - The floating-point statistics of a row are an uninterpreted function
    `stats`.
  - The method builds the `scores` list of Python floats in a loop and
    takes `scores.index(max(scores))`, NaN included. It is proved equal to a specification
    function, and a lemma shows that the numeric-dtype penalty can never
    change the choice.
- `Sheets.dfy`: the per-sheet header promotion of `load_file`, and
  `class Sheet` for one stored sheet.
  - `Sheet.UpdateHeader` models `update_sheet_header`. It replaces the
    stored table in place.
  - `Sheet.Clean` models `clean_data`: `dropna` then `drop_duplicates`.
  - Lemmas show that re-selecting a header is not idempotent: each
    selection works on already promoted data.
- `JoinEngine.dfy`: `VLOOKUPThread.run`.
  - Each iteration stringifies every column carrying either key label. The
    lookup key is stringified in the loaded sheet itself, which the model captures with
    a `modifies` clause on the sheets.
  - Then comes `pd.merge(how='left', suffixes=('', '_table{i}'))`, stated
    by its result, and `fillna('N/A')`, then a progress value.
  - After the loop, `result_df[columns_to_keep]` and exactly one result or
    error signal, with a final 100 from the `finally` block.
  - `RunFrom` is the loop as a recursive function. `JoinAll` and `Run` are
    the imperative loop proved against it. `Engine` is the whole run:
    signals, plus the lookup tables as the run leaves them.
- `MainWindow.dfy`: the small list operations of the main window.
  - the progress clamp;
  - the most-recently-used file list, `class RecentFiles`;
  - the return-column check boxes, `class ReturnColumnList`, with its
    case-insensitive filter and the selection.

Where the code's behaviour may be unexpected, the model follows it:
- Header detection raises on a sheet without rows (`max()` of an empty
  list), on a sheet without columns, and on a candidate row holding a
  cell of empty text (both ZeroDivisionError). The file then fails to
  load; no default row is returned.
- On a one-column sheet every score is NaN (the standard deviation of a
  single length), so detection always picks row 0.
- A key label that names several columns fails at the merge, after all
  those columns were stringified; an absent key label fails before.
- Header reassignment drops only the chosen row; earlier rows stay. It
  works on the current, already promoted data, not on the original grid,
  so it is neither idempotent nor reversible.
- When the lookup key has the main key's name, pandas keeps a single key
  column. The lookup key is not added with a `_table{i}` suffix.
- When the main key is also among the return columns, it appears twice in
  the result (`ProjectionColumns`).

## Model

| member | source | states |
|---|---|---|
| Tables.Stringified | advanced_vlookup_tool.py:809-810 | `astype(str)` turns a cell into a string cell holding its printed form; never a gap |
| Tables.Positions | advanced_vlookup_tool.py:809 | the positions carrying a label are exactly the positions with that label; none exactly when the label is absent |
| Tables.PositionsIncreasing | advanced_vlookup_tool.py:824 | those positions come in column order |
| Tables.KeepIn | advanced_vlookup_tool.py:823 | `[col for col in result_df.columns if col in return_columns]`: exactly the labels in both, at most as many as the table has |
| Tables.KeepInAppend | advanced_vlookup_tool.py:823 | the comprehension keeps the table's order: filtering a concatenation filters each part |
| Tables.FlattenBlock | advanced_vlookup_tool.py:812-817 | the joined rows are the blocks laid end to end: block `j` sits exactly between its offset and the next |
| Tables.Lower | advanced_vlookup_tool.py:486 | `lower()` keeps the length and lower-cases each character |
| Tables.ContainsIsSubstring | advanced_vlookup_tool.py:486 | Python's `in` on strings holds exactly when the text occurs at some position |
| Tables.NatToString | advanced_vlookup_tool.py:817 | the index in `_table{i}` is a non-empty text of decimal digits, of two digits or more from 10 on |
| Tables.NatToStringInjective | advanced_vlookup_tool.py:817 | different indices print differently |
| HeaderDetection.PositionBonus | advanced_vlookup_tool.py:715-719 | the first row gets 2, the second 1.5, every other row nothing |
| HeaderDetection.HasKeywordIgnoresCase | advanced_vlookup_tool.py:743-746 | the keyword bonus ignores case: rows that print the same up to case both earn it or neither does |
| HeaderDetection.AllUniqueMeans | advanced_vlookup_tool.py:757-758 | `nunique() == len(row)` holds exactly when the row has no gap and no repeated value |
| HeaderDetection.DtypePenalty | advanced_vlookup_tool.py:748-750 | the dtype penalty is 0 or 1, the same for every row of the frame, and 0 as soon as any cell is text |
| HeaderDetection.ScorePrefersEarlierRow | advanced_vlookup_tool.py:711-760 | of two rows with the same cells the earlier scores no less, and strictly more when it is one of the first two |
| HeaderDetection.PyScore | advanced_vlookup_tool.py:733-736 | the float score is NaN exactly on a one-column sheet (`std()` of one length), otherwise the real score |
| HeaderDetection.CandidateCount | advanced_vlookup_tool.py:711 | exactly `min(10, n)` candidates; none exactly when the sheet has no rows |
| HeaderDetection.Scores | advanced_vlookup_tool.py:711-759 | one score per candidate row, in row order |
| HeaderDetection.FirstArgmax | advanced_vlookup_tool.py:761 | the chosen index holds a maximum and no earlier score reaches it |
| HeaderDetection.FirstMaxUnique | advanced_vlookup_tool.py:761 | ties are resolved one way only: the first maximum is unique |
| HeaderDetection.FirstArgmaxShift | advanced_vlookup_tool.py:761 | lowering every score by the same amount keeps the choice |
| HeaderDetection.DtypePenaltyNeverDecides | advanced_vlookup_tool.py:748-749 | the numeric-dtype penalty is the same for every row of a sheet, so the choice equals the one made without it |
| HeaderDetection.DetectSpec | advanced_vlookup_tool.py:707-763 | raises exactly on a sheet without rows (`max` of no scores), without columns (division by `len(row)`), or with a non-missing cell of empty text in a candidate row (division by `len(str(x))`); a one-column sheet gives row 0; otherwise an index below `min(10, n)` that is the first maximum |
| HeaderDetection.MaxOf | advanced_vlookup_tool.py:761 | `max(scores)` keeps an entry until a later one is strictly greater: a leading NaN is kept; over finite scores it is a maximum above every earlier score |
| HeaderDetection.IndexOf | advanced_vlookup_tool.py:761 | `scores.index(x)` is the first position equal to `x`, or `x`'s own position (identity) when none before is equal |
| HeaderDetection.DetectHeaderRow | advanced_vlookup_tool.py:707-763 | the scoring loop, `max` and `index` over float scores return or raise exactly what `DetectSpec` says |
| Sheets.PromoteHeader | advanced_vlookup_tool.py:326-327 | labels are the string forms of row `h`; only row `h` is removed; earlier and later rows keep their order |
| Sheets.LoadSheet | advanced_vlookup_tool.py:324-333 | a sheet fails exactly when detection raises, with its error; a header at row 0 keeps the sheet; a later header `h` gives exactly `PromoteHeader` at `h`: its string forms as labels, the rows before and after it kept in order |
| Sheets.LoadOne | advanced_vlookup_tool.py:324-333 | the body of the sheet loop stores a fresh sheet holding what `LoadSheet` describes, or fails as it does |
| Sheets.LoadFile | advanced_vlookup_tool.py:315-342 | the file fails exactly when some sheet fails, with the first failing sheet's error; otherwise every sheet, in order, under its own name |
| Sheets.ComboEntriesNameRows | advanced_vlookup_tool.py:417-420 | each of the `min(10, rows)` row entries after "smart detection" selects a row the data holds |
| Sheets.DropMissing | advanced_vlookup_tool.py:651 | `dropna()` keeps exactly the rows without a gap |
| Sheets.DropMissingAppend | advanced_vlookup_tool.py:651 | `dropna()` keeps order and multiplicity: dropping from a concatenation drops from each part |
| Sheets.DropDuplicates | advanced_vlookup_tool.py:652 | `drop_duplicates()` keeps each distinct row once and no other row |
| Sheets.DropDuplicatesKeepsFirstOccurrences | advanced_vlookup_tool.py:652 | the kept rows are first occurrences and stay in input order |
| Sheets.CleanRows | advanced_vlookup_tool.py:651-652 | the cleaned rows are exactly the complete rows, each once |
| Sheets.CleanRowsExtend | advanced_vlookup_tool.py:651-652 | cleaning keeps input order: one more row is appended exactly when it is complete and new, else nothing changes |
| Sheets.Sheet.constructor | advanced_vlookup_tool.py:330-333 | a stored sheet holds the loaded frame and its detected header row |
| Sheets.Sheet.UpdateHeader | advanced_vlookup_tool.py:765-775 | combo entry 0 means the detected row, entry `k` means row `k - 1`; that row of the current data is promoted; a row past the end changes nothing |
| Sheets.Sheet.Clean | advanced_vlookup_tool.py:648-655 | the stored frame is replaced by its cleaned rows under the same labels |
| Sheets.ReselectingHeaderDropsAnotherRow | advanced_vlookup_tool.py:771-774 | promoting the same index twice (a load at `h`, then the entry for row `h + 1`) removes two rows: reassignment is not idempotent |
| Sheets.SmartReselectReadsNextRow | advanced_vlookup_tool.py:766-774 | after a load that promoted row `h > 0`, the combo entry for row `h + 1` takes its labels from the row after `h` in the sheet as parsed: entries count rows of the promoted data |
| JoinEngine.ColumnIndex | advanced_vlookup_tool.py:812-817 | a merge key among the labels: the single position with that label; KeyError exactly when absent, otherwise not-unique |
| JoinEngine.StringifyLabel | advanced_vlookup_tool.py:809-810 | `df[name] = df[name].astype(str)`: every column with that label holds its cells' string forms; labels, shape and all other cells stay |
| JoinEngine.KeptPositions | advanced_vlookup_tool.py:812-817 | every lookup column enters the merge, in the sheet's order, except the lookup key when it has the main key's name |
| JoinEngine.Suffix | advanced_vlookup_tool.py:817 | `_table{i}` is "_table" followed by the decimal digits of `i` |
| JoinEngine.SuffixInjective | advanced_vlookup_tool.py:817 | different steps append different suffixes |
| JoinEngine.RenameLabel | advanced_vlookup_tool.py:817 | a lookup label changes exactly when the accumulated labels hold it, and then only by appending `_table{i}` |
| JoinEngine.Renamed | advanced_vlookup_tool.py:817 | each lookup label gets `_table{i}` exactly when the accumulated table already has that label |
| JoinEngine.CreatesDuplicateMeans | advanced_vlookup_tool.py:812-817 | pandas' MergeError fires exactly when some lookup label the accumulated table also has, suffixed, equals another lookup label the accumulated table lacks |
| JoinEngine.CollisionHasWitnesses | advanced_vlookup_tool.py:812-817 | a collision always has such a pair of labels |
| JoinEngine.WitnessesCollide | advanced_vlookup_tool.py:812-817 | such a pair of labels always makes a collision |
| JoinEngine.Matches | advanced_vlookup_tool.py:812-817 | the matches of a key are lookup rows whose key cell equals it; none when no row has it |
| JoinEngine.MatchesComplete | advanced_vlookup_tool.py:812-817 | every lookup row with the key is matched |
| JoinEngine.MatchesInOrder | advanced_vlookup_tool.py:812-817 | matches come in lookup order |
| JoinEngine.JoinRow | advanced_vlookup_tool.py:812-817 | an accumulated row becomes one row per match, or one row when nothing matches |
| JoinEngine.JoinRowContents | advanced_vlookup_tool.py:812-817 | each produced row is the accumulated row followed by the matched row's kept cells, or by gaps |
| JoinEngine.JoinBlocks | advanced_vlookup_tool.py:812-817 | one block per accumulated row, in order |
| JoinEngine.Merge | advanced_vlookup_tool.py:812-817 | the merged labels are the accumulated labels followed by the lookup labels; every row fits them |
| JoinEngine.FillMissing | advanced_vlookup_tool.py:819 | `fillna('N/A')` replaces every gap of the whole table and nothing else; afterwards no row has a gap |
| JoinEngine.PandasMerge | advanced_vlookup_tool.py:812-817 | pandas' merge fails exactly on a suffix collision among the renamed lookup labels, with MergeError; otherwise it is the left join `Merge` under those labels |
| JoinEngine.Step | advanced_vlookup_tool.py:809-819 | one iteration keeps the table shapes of the accumulated result and of the lookup sheet; its errors and side effect are stated by `StepErrorsAndSideEffect` |
| JoinEngine.Quotient | advanced_vlookup_tool.py:821 | the progress quotient is floor division: `d * q <= a < d * (q + 1)` |
| JoinEngine.Percent | advanced_vlookup_tool.py:821 | the step's progress is the completed fraction in whole percent, rounded down |
| JoinEngine.RunFrom | advanced_vlookup_tool.py:808-821 | the loop from iteration `i`: a success completes every remaining step; earlier lookup sheets are untouched |
| JoinEngine.StepThenRun | advanced_vlookup_tool.py:808-821 | one iteration then the rest: same guarantees as `RunFrom` |
| JoinEngine.SelectPositionsInRange | advanced_vlookup_tool.py:824 | every selected position is a column of the table whose label was requested |
| JoinEngine.SelectPositionsCover | advanced_vlookup_tool.py:824 | a position is selected exactly when its label is requested |
| JoinEngine.SelectPositionsAppend | advanced_vlookup_tool.py:824 | positions come grouped per requested name, in the order of the names |
| JoinEngine.Select | advanced_vlookup_tool.py:824 | `df[names]` keeps every row; column `k` is a copy, label and cells, of the `k`-th selected column of the table |
| JoinEngine.KeepColumns | advanced_vlookup_tool.py:823 | `columns_to_keep` is the main key, then exactly the result's labels that were asked for, in the result's order |
| JoinEngine.Projection | advanced_vlookup_tool.py:823-824 | the projection fails exactly when the main label is missing, with KeyError; otherwise it keeps every row |
| JoinEngine.Terminal | advanced_vlookup_tool.py:823-828 | the run ends in exactly one of `result_ready` and `error_occurred` |
| JoinEngine.ProgressEvents | advanced_vlookup_tool.py:821 | step `k` reports `(k + 1) * 100 / total`, in step order |
| JoinEngine.ProgressEventsExtend | advanced_vlookup_tool.py:821 | each completed step appends its own progress value |
| JoinEngine.RunStep | advanced_vlookup_tool.py:809-819 | the loop body changes the lookup sheet as `Step` says and leaves either the run's error or the run from the next iteration |
| JoinEngine.LoopStep | advanced_vlookup_tool.py:808-821 | one step advances the whole run: an error ends it, a success hands on to the next iteration |
| JoinEngine.JoinAll | advanced_vlookup_tool.py:805-821 | the loop's outcome, its progress signals and every lookup sheet afterwards are those of `RunFrom` |
| JoinEngine.Run | advanced_vlookup_tool.py:803-830 | the signals emitted and the lookup sheets left behind are exactly `Engine`'s |
| JoinEngine.StepMatchesOnStringForms | advanced_vlookup_tool.py:809-817 | after stringifying, two keys match exactly when their printed forms are equal |
| JoinEngine.MergeIsLeftJoin | advanced_vlookup_tool.py:812-817 | accumulated row `j` becomes exactly its block, and the blocks follow the accumulated order |
| JoinEngine.UniqueKeysMatchAtMostOnce | advanced_vlookup_tool.py:812-817 | with distinct lookup keys a row matches at most once |
| JoinEngine.MergeKeepsRows | advanced_vlookup_tool.py:812-817 | a left join never has fewer rows than its left side |
| JoinEngine.MergeUniqueKeysKeepsRowCount | advanced_vlookup_tool.py:812-817 | with distinct lookup keys it has exactly as many rows |
| JoinEngine.StepColumns | advanced_vlookup_tool.py:812-817 | after a step: the accumulated labels in front, then each kept lookup label, suffixed exactly on a clash |
| JoinEngine.StepFillsAndKeepsRows | advanced_vlookup_tool.py:812-819 | after a step no cell is missing and no accumulated row is lost |
| JoinEngine.StepErrorsAndSideEffect | advanced_vlookup_tool.py:809-817 | in the source's order: KeyError for an absent main key, then for an absent lookup key, both leaving the lookup untouched; past them the lookup's key columns are stringified, then a non-unique lookup key, a non-unique main key, a suffix collision |
| JoinEngine.PercentBounds | advanced_vlookup_tool.py:821 | every progress value lies in 0..100; the last step reports 100 |
| JoinEngine.PercentMonotone | advanced_vlookup_tool.py:821 | progress never decreases |
| JoinEngine.RunFromResult | advanced_vlookup_tool.py:808-821 | a successful loop loses no rows, keeps the main labels in front and, after one step or more, leaves no gap |
| JoinEngine.RunFromMissingMainColumn | advanced_vlookup_tool.py:809 | a main key label that is absent fails the next step with KeyError |
| JoinEngine.RunFromLookups | advanced_vlookup_tool.py:810 | every lookup sheet is left as it was or with its key columns stringified |
| JoinEngine.EngineSignals | advanced_vlookup_tool.py:821-830 | one progress value per completed step, then exactly one result or error, then 100 last; a result only after every step |
| JoinEngine.SignalsProgressOrdered | advanced_vlookup_tool.py:821-830 | the progress values of any run lie in 0..100 and never decrease, with the final 100 after them |
| JoinEngine.EngineProgressMonotone | advanced_vlookup_tool.py:821-830 | the same for the signals of the whole run |
| JoinEngine.SelectMainFirst | advanced_vlookup_tool.py:823-824 | `df[[main] + rest]` starts with a main-key column |
| JoinEngine.ProjectionResult | advanced_vlookup_tool.py:823-824 | the projection puts the main key first, keeps only requested labels and every row, and adds no gap |
| JoinEngine.EngineResult | advanced_vlookup_tool.py:803-830 | a result has the main key first, only requested columns otherwise, at least the main table's rows and, with a lookup, no gap |
| JoinEngine.EngineMissingMainColumn | advanced_vlookup_tool.py:808-828 | a main key absent from the main table always ends the run with KeyError, then 100 |
| JoinEngine.EngineLookupSideEffect | advanced_vlookup_tool.py:810 | the only lasting change to the lookup sheets is stringified key columns |
| JoinEngine.SelectDistinct | advanced_vlookup_tool.py:824 | with distinct labels `df[names]` has exactly the labels `names` |
| JoinEngine.SelectPositionsOfUnique | advanced_vlookup_tool.py:824 | when each name labels one column, one position per name, in the names' order |
| JoinEngine.ProjectionColumns | advanced_vlookup_tool.py:823-824 | with distinct labels the result's labels are exactly `columns_to_keep`: main key, then requested labels in table order |
| JoinEngine.ProjectionCells | advanced_vlookup_tool.py:823-824 | with distinct labels, cell `(r, k)` of the result is row `r` of the joined table's column labelled `columns_to_keep[k]` |
| MainWindow.ClampPercent | advanced_vlookup_tool.py:88 | the shown value is in 0..100, equal to the report when that is in range, else the nearer bound |
| MainWindow.PyPrefix | advanced_vlookup_tool.py:306 | `s[:n]` is a prefix of length `min(n, len)`, or all but the last `-n` for negative `n` |
| MainWindow.WithoutPath | advanced_vlookup_tool.py:304 | the filter keeps exactly the entries of other files |
| MainWindow.WithoutPathAppend | advanced_vlookup_tool.py:304 | it keeps their relative order |
| MainWindow.WithoutPathAbsent | advanced_vlookup_tool.py:304 | a list without the file passes unchanged |
| MainWindow.MruUpdate | advanced_vlookup_tool.py:303-306 | the opened file is in front with the new time and nowhere else; the rest is a prefix of the old list without it; the length is `min(max, ...)`, or the list cut by `-max` from the end when the maximum is negative |
| MainWindow.WithoutPathDistinct | advanced_vlookup_tool.py:304 | filtering keeps paths distinct |
| MainWindow.MruUpdateDistinct | advanced_vlookup_tool.py:303-306 | an update keeps paths distinct |
| MainWindow.MruReopenFront | advanced_vlookup_tool.py:303-306 | reopening the front file only refreshes its time |
| MainWindow.RecentFiles.constructor | advanced_vlookup_tool.py:275 | the list starts empty with the configured maximum |
| MainWindow.RecentFiles.Update | advanced_vlookup_tool.py:303-306 | the field becomes `MruUpdate` of its old value |
| MainWindow.RecentFiles.Clear | advanced_vlookup_tool.py:374-375 | the list becomes empty |
| MainWindow.FilterItems | advanced_vlookup_tool.py:482-487 | labels and ticks stay; an item is hidden exactly when its label lacks the text, ignoring case |
| MainWindow.FilterLastWins | advanced_vlookup_tool.py:482-487 | only the last filter counts |
| MainWindow.FilterEmptyShowsAll | advanced_vlookup_tool.py:482-487 | the empty filter shows every item |
| MainWindow.Selected | advanced_vlookup_tool.py:533-537 | at most one label per item; order by `SelectedAppend`, which labels by `SelectedMembers` |
| MainWindow.SelectedAppend | advanced_vlookup_tool.py:533-537 | the labels come in list order: selecting from a concatenation selects from each part |
| MainWindow.SelectedMembers | advanced_vlookup_tool.py:533-537 | a label is selected exactly when a visible, ticked item carries it |
| MainWindow.SelectedAfterFilter | advanced_vlookup_tool.py:533-537 | after a filter every selected label contains its text, ignoring case |
| MainWindow.ReturnColumnList.constructor | advanced_vlookup_tool.py:476-480 | one unticked, visible box per column label |
| MainWindow.ReturnColumnList.Filter | advanced_vlookup_tool.py:482-487 | the loop sets every hidden flag as `FilterItems` says |

## Left out

- The floating-point parts of the header score are one uninterpreted real
  `stats(row)`: string ratio, non-null ratio, type consistency, length
  consistency, short-text preference, special characters. Only the choice
  of the first maximum and the exact bonuses are modelled.
- HeaderDetection.HasKeyword: lower-casing covers ASCII letters only;
  Python's `str.lower` is Unicode-wide.
- Tables.Lower: the same ASCII restriction applies to the return-column
  filter.
- JoinEngine.Percent: integer floor division of `(i + 1) * 100` by the
  number of steps. The source computes `int((i + 1) / total * 100)` in
  floating point, which can be one lower (`29 / 100 * 100` gives
  28.999...).
- Cells carry their printed text as given. pandas' dtype inference, and
  so whether `1` prints as `1` or `1.0`, is outside the model.
- Labels are strings. Promoting a header row stores the string forms of
  its cells. `update_sheet_header` assigns the raw cells, and the combo
  refresh then rewrites them with `astype(str)` for the main table and
  the checked lookup tables.
- The row index pandas keeps (`reset_index`) is not represented.
- JoinEngine.KeptPositions: when the accumulated table has no rows and
  both keys have the same name, pandas drops the left key column instead
  of the right one, so that column ends up later in the result. The model
  always drops the lookup key.
- HeaderDetection.PyScore: a missing cell is pandas' NaN (`str` gives
  `nan`). A `None` cell, whose length counts as 0, is not distinguished,
  so a one-column sheet whose lengths average 0 is not modelled.
- The merge's `MergeError` is modelled on the lookup side only: a suffix
  that makes two lookup labels equal. A suffixed label that equals an
  accumulated label is kept, as pandas keeps it.
- `JoinAll` and `Run` need the lookup sheets to be distinct objects. The
  same loaded sheet chosen twice (aliasing) is not modelled.
- `Sheet.UpdateHeader` with an index past the end raises in the Qt slot
  and changes nothing; the model returns `false` without the exception.
- Qt widgets, threads and signal delivery, dialogs, drag and drop, PDF
  and Excel writing are left out. So are settings and configuration
  files and `load_settings` (it depends on `os.path.exists`), the
  `RecentFilesDialog` filter, and the updater's network calls. `run` is
  one sequential method that returns its signals.
- The clock `datetime.now()` is the parameter `now` of
  `RecentFiles.Update`.
- Excel parsing is left out: `LoadFile` receives each sheet as a table.
- help_dialog.py, settings_dialog.py, updater.py and welcome_dialog.py
  are not part of this model: they hold dialogs, settings persistence and
  network updating only.
