# Excel blank-cell checks, modelled in Dafny

This project models two checks from a set of Python Excel tools. It drops
their GUI, process pool and library wrappers. What remains is pure functions
over a column or a grid of cell values, with proofs about them.

**Rule 1 of the configuration-table checker** (`tool_show.py`, `_execute_rule1`)
- For each workbook it reads the ID column of one sheet. The header is on
  sheet row 6, so data index `i` is sheet row `i + 7`.
- It flags the rows whose value is missing or exactly `''`.
- It finds the last value that is not blank, where blank means missing or
  empty after `str.strip()`.
- It keeps only the flagged rows up to that value and prints one line per
  kept row.
- The shared `empty_rows` list is emptied after every file.
- A workbook that fails to read adds its "checking" line and then only a
  failure line.
- The workbooks come from a directory walk. It keeps the names that end in
  `.xlsx` or `.xls`, ignoring case.

**The empty-cell scan of `3.py`**
- `scan_sheet_for_empty_cells` reads one sheet as text. A cell is empty when
  it is null or matches `^\s*$`. The scan lists the empty cells in
  row-major order as A1 references: openpyxl's bijective base-26 column
  letters followed by the 1-based row.
- `parallel_static_data_check` runs one task per sheet. It stores each
  non-empty result in a dict under the sheet name as the tasks complete,
  so the dict's keys are in completion order. It then prints, in that
  order, every sheet's count and its references five to a line, and then
  the grand total.

Modules, one per file:
- `Basics`: Option, distinctness and subsequences.
- `Text`: Python's whitespace set, `strip`, the `^\s*$` match, `lower` and
  `endswith`.
- `Cells`: the cell value, one of `Missing | Str(text) | Other`.
- `ExcelFiles`: the file-name filter.
- `IdColumn`: Rule 1.
- `CellRefs`: column letters, decimal row numbers, A1 references and their
  parse.
- `SheetScan`: the per-sheet scan.
- `Collection`: the dict, the completion order and the summary.

Facts about the code that the model keeps:
- There is no row-chunk partitioner and no sort or dedup step. There is one
  task per sheet, and `np.argwhere` already yields row-major order.
- Rule 1 flags only missing or exactly empty values (`value == ''`). A
  whitespace-only text is not flagged, but it counts as blank when the end
  of the data is found.
- When every ID value is blank, the limit becomes row 6, so every flagged
  row is dropped (`IdColumn.AllBlankReportsNothing`).
- A sheet that fails to read gives `[]`, the same as a sheet with no
  findings. There is no separate error marker.
- A missing workbook returns an empty dict. An error is logged and no
  summary is printed.
- If `get_column_letter` raises partway through a sheet, the `except` sits
  outside the loop. The sheet then keeps the references built so far, not
  `[]` (`SheetScan.RenderRefsStop`). No sheet Excel can hold reaches that
  column.

## Model

| member | source | states |
|---|---|---|
| Text.StripLeading | tool_show.py:196 | `lstrip()` drops exactly the leading whitespace run: what it drops is whitespace and what it keeps starts with non-whitespace |
| Text.StripTrailing | tool_show.py:196 | `rstrip()` drops exactly the trailing whitespace run |
| Text.Strip | tool_show.py:196 | `strip()` is empty exactly when the text is all whitespace; otherwise it starts and ends with non-whitespace |
| Text.StripKeepsMiddle | tool_show.py:196 | what `strip()` keeps is the text from its first non-whitespace character, unchanged, and everything before and after it is whitespace |
| Text.Lower | tool_show.py:112 | `lower()` keeps the length and lower-cases each character in place (ASCII letters only; see Left out) |
| Text.BlankPatternIffAllSpace | 3.py:63 | `^\s*$` matches a text iff the text is all whitespace, iff `strip()` gives `''`; this holds even with the end anchor's final-newline rule |
| ExcelFiles.SelectExcelFiles | tool_show.py:110-113 | the walk keeps an entry iff its lower-cased name ends with `.xlsx` or `.xls`; the kept entries are a subsequence of the walk, in walk order |
| ExcelFiles.AcceptedNames | tool_show.py:112 | `.xlsx` and `.xls` names are accepted in any letter case |
| ExcelFiles.RejectedNames | tool_show.py:112 | `.xlsm`, a bare `xlsx` and `a.xlsx.bak` are rejected |
| ExcelFiles.ExcelFileNameIgnoresCase | tool_show.py:112 | lower-casing a name first does not change whether it is selected |
| IdColumn.FlaggedIsBlank | tool_show.py:191-196 | every flagged value is blank for the end-of-data test; a non-empty whitespace-only text is blank but not flagged |
| IdColumn.FlaggedRows | tool_show.py:190-192 | row r is flagged iff it lies in 7..6+len, and its value is missing or exactly `''`; rows are strictly ascending |
| IdColumn.FlagColumn | tool_show.py:190-192 | the enumerate loop collects exactly the flagged rows |
| IdColumn.FlaggedRowsSnoc | tool_show.py:190-192 | appending a value adds its row to the flagged rows iff it is flagged |
| IdColumn.ExampleColumnFlagged | tool_show.py:190-192 | in the column `'', spaces, ID, missing`, rows 7 and 10 are flagged and the spaces row is not |
| IdColumn.LastNonBlank | tool_show.py:195-197 | the result is the last non-blank index: the value there is not blank, every later value is blank, and -1 means all are blank |
| IdColumn.FindLastNonEmpty | tool_show.py:195-197 | the backwards while loop stops at such an index |
| IdColumn.LastNonBlankUnique | tool_show.py:195-197 | those three properties determine the index uniquely |
| IdColumn.LastNonBlankSnoc | tool_show.py:195-197 | appending a non-blank value makes it the last real ID; appending a blank one changes nothing |
| IdColumn.RealIdFromIffBeforeLast | tool_show.py:195-199 | a real ID exists at index i or later iff i is at most the last non-blank index |
| IdColumn.KeepUpTo | tool_show.py:199 | the comprehension keeps exactly the rows at most the limit, as a subsequence, and keeps ascending order |
| IdColumn.KeepUpToIdempotent | tool_show.py:199 | filtering twice with one limit equals filtering once |
| IdColumn.TrimIdempotent | tool_show.py:199 | trimming a column's report again with its own limit changes nothing |
| IdColumn.TrimmedRows | tool_show.py:190-199 | a row is reported iff it is flagged and a real ID follows on or after it; the report is ascending and a subsequence of the flagged rows |
| IdColumn.DroppedRowsAreTrailing | tool_show.py:195-199 | a flagged row that is dropped lies in the trailing run of blank values |
| IdColumn.AllBlankReportsNothing | tool_show.py:195-199 | if every value is blank, the last index is -1 and nothing is reported |
| IdColumn.ExampleColumnTrimmed | tool_show.py:190-199 | in the example column the last real ID is index 2 (row 9), so row 7 is reported and row 10 is dropped |
| IdColumn.FileReport | tool_show.py:187-204 | a file reports a "checking" line, then either its read failure alone or, in order, one missing-ID line for each trimmed row; every line names that file |
| IdColumn.Reports | tool_show.py:185-205 | the file loop's output starts with the first file's "checking" line, and every line names one of the files |
| IdColumn.ReportsSingle | tool_show.py:185-205 | the loop over a single file outputs exactly that file's report |
| IdColumn.Rule1Report | tool_show.py:180-207 | the "no Excel file" line appears iff there are no files, and then alone; otherwise the output starts with the first file's "checking" line and every other line names one of the files |
| IdColumn.ReportRows | tool_show.py:200-201 | the print loop emits one missing-ID line per kept row, in order |
| IdColumn.CheckFile | tool_show.py:186-204 | one iteration of the file loop produces that file's report and leaves the shared `empty_rows` empty |
| IdColumn.ExecuteRule1 | tool_show.py:180-207 | no files gives the single "no Excel file" line; otherwise the output is the per-file reports in order |
| IdColumn.ReportsConcat | tool_show.py:185-205 | the report of two batches of files is the two reports concatenated: no file's lines depend on earlier files |
| IdColumn.FailedFileIsolated | tool_show.py:203-205 | a file whose read raises adds exactly its two lines, and the files after it are reported as usual |
| CellRefs.ColumnLetters | 3.py:71 | column letters are at least one capital letter |
| CellRefs.ColumnNumberOfLetters | 3.py:71 | reading the letters back as bijective base 26 gives the column |
| CellRefs.LettersOfColumnNumber | 3.py:71 | every non-empty string of capitals is the letters of exactly one column, so the encoding is onto |
| CellRefs.ColumnLettersInjective | 3.py:71 | distinct columns get distinct letters |
| CellRefs.ColumnLetterExamples | 3.py:71 | 1, 26, 27, 702, 703 and 18278 become A, Z, AA, ZZ, AAA and ZZZ |
| CellRefs.GetColumnLetter | 3.py:71 | `get_column_letter` succeeds exactly on 1..18278, and then gives at most three capitals that read back as the column given |
| CellRefs.GetColumnLetterOnto | 3.py:71 | every string of one to three capitals is what `get_column_letter` returns for the column it reads as |
| CellRefs.ColumnNumberBound | 3.py:71 | k letters name a column no larger than the k-letter run of Z |
| CellRefs.ShortLetters | 3.py:71 | columns up to 18278 take at most three letters |
| CellRefs.Decimal | 3.py:70-72 | `str(row)` is decimal digits with no leading zero |
| CellRefs.DecimalRoundTrip | 3.py:70-72 | reading the digits back gives the number |
| CellRefs.ParseCellRefRoundTrip | 3.py:72 | splitting a reference into its letter run and digit run gives back the row and column |
| CellRefs.CellRefInjective | 3.py:69-73 | two references are equal iff their rows and columns are equal |
| SheetScan.EmptyCellMeaning | 3.py:58-66 | after the regex replace, `isnull()` holds iff the cell is missing or its text is whitespace only, `''` included; other values never |
| SheetScan.RowEmpties | 3.py:66 | the empty positions of one row, left to right |
| SheetScan.EmptyPositionsUpTo | 3.py:66 | the empty positions of the first n rows, in row-major order |
| SheetScan.EmptyPositions | 3.py:66 | `np.argwhere` lists every empty position exactly once in row-major order; the count is the number of empty cells |
| SheetScan.RefAt | 3.py:69-73 | one iteration builds a reference iff the column is at most 18278, and that reference is the A1 reference of the position |
| SheetScan.RenderRefs | 3.py:69-77 | the loop builds at most one reference per position |
| SheetScan.RenderRefsAt | 3.py:69-73 | reference i is the A1 reference of position i, with 1-based row and column |
| SheetScan.RenderRefsEach | 3.py:69-73 | that holds for every built reference |
| SheetScan.RenderRefsStop | 3.py:69-77 | the loop stops early only at a column that `get_column_letter` rejects; the references built before it are kept |
| SheetScan.RenderAll | 3.py:69-73 | with every column inside 18278, every position is rendered |
| SheetScan.RenderDistinct | 3.py:69-73 | distinct positions give distinct references |
| SheetScan.RenderPositions | 3.py:69-73 | distinct positions inside 18278 columns are all rendered, in order, with no two references alike |
| SheetScan.RenderAllEmpty | 3.py:66-73 | on a sheet at most 18278 columns wide, every empty position is rendered |
| SheetScan.RenderComplete | 3.py:66-73 | on such a sheet the references are those of the empty positions in order, and no two are alike |
| SheetScan.RenderedRefNamesEmptyCell | 3.py:66-73 | each built reference names an empty cell of the sheet |
| SheetScan.RenderedRefsNameEmptyCells | 3.py:66-73 | every built reference names an empty cell of the sheet |
| SheetScan.ScanSheet | 3.py:47-78 | the result carries the sheet's name; a failed read gives `[]` and never propagates; otherwise every reference names an empty cell |
| SheetScan.ScanSheetComplete | 3.py:66-73 | on a sheet at most 18278 columns wide: one reference per empty cell, in row-major order, no two alike |
| Collection.Store | 3.py:112 | `d[k] = v` adds k to the dict's keys and appends when k is new |
| Collection.StoreKeepsNamesUnique | 3.py:112 | assignment keeps keys unique |
| Collection.StoreEntry | 3.py:112 | after assignment an entry is present iff it is the new one or an old one under another key |
| Collection.StoreEntries | 3.py:112 | the same for all entries at once |
| Collection.StoreInPlace | 3.py:112 | assigning a key already in the dict keeps its length and order and replaces only that key's value |
| Collection.Collect | 3.py:109-112 | the collected dict has unique keys, only non-empty lists, and exactly the names of the results with findings; with one result per name it is a subsequence of the results, so the keys keep arrival order |
| Collection.CollectEntries | 3.py:109-112 | with one result per name, the entries are exactly the results with findings |
| Collection.CollectOrderIndependent | 3.py:109-112 | two arrival orders of the same results give the same entries, lookups and total |
| Collection.DuplicateNamesDependOnOrder | 3.py:109-112 | two different results under one name make the dict depend on the order: the later arrival wins |
| Collection.TotalIsSum | 3.py:122-132 | the total summed over the dict equals the sum of all the per-sheet list lengths |
| Collection.Groups | 3.py:128-130 | the slices `cells[i:i+5]` concatenate back to the list; each has 1 to 5 references, all but the last exactly 5, and there are ceil(n/5) of them |
| Collection.Summarize | 3.py:122-134 | the summary has one entry per dict entry, in dict order, with its name, its count and its lines: they concatenate back to the list, each holds 1 to 5 references and all but the last exactly 5; it also holds the total |
| Collection.StaticDataCheck | 3.py:80-141 | a missing file returns an empty dict without the summary; a workbook that fails to open, or has no sheets, returns an empty dict with the (empty) summary; otherwise the result is summarised; the dict has unique keys and only non-empty lists |
| Collection.ArrivalElements | 3.py:99-110 | under any completion order the arriving results are exactly the scans of the workbook's sheets |
| Collection.ArrivalsFunctional | 3.py:101-112 | with distinct sheet names, two arrivals with one name are the same result |
| Collection.StaticDataCheckContents | 3.py:101-112 | a sheet's scan is in the returned dict iff it found something |
| Collection.StaticDataCheckOrderIndependent | 3.py:99-112 | any two completion orders give the same entries, lookups and total |
| Collection.StaticDataCheckTotal | 3.py:122-134 | the printed total is the number of references over all sheets |

## Left out

- The PyQt6 window of `ConfigTableChecker` (`tool_show.py:11-173`, `218-222`) is left out. It is event plumbing and has no checking logic.
- `os.walk` and `os.path.join` are not modelled. The walk is a sequence of (directory, name) entries, and `_execute_rule1` receives the files it found.
- `pd.read_excel` and `pd.ExcelFile` are not modelled. Their outcomes are inputs: a column or grid of `Cell` values, or a failure with its message.
- Rule 1 reads a fixed sheet name from each workbook; the name is not modelled because it only selects which column is read.
- `ProcessPoolExecutor` and `as_completed` are replaced by an arbitrary permutation of the sheet indices: the order in which results arrive.
- Logging and the exact wording of the output lines are left out. A line is a datatype that carries the file, row or reason it reports.
- Timing with `time.time()` is left out, because it is floating-point wall-clock time.
- The `_execute_rule2` and `_execute_rule3` stubs have no behaviour and are not modelled.
- No row-chunk partitioner exists in this code, so none is modelled.
- An exception from `future.result()` is not modelled. `scan_sheet_for_empty_cells` catches its own errors, and such an exception would reach the global handler.
- A sheet read that fails partway through (inside `df.replace` or `argwhere`) is modelled as a whole-sheet failure.
- `pd.read_excel` treats its default missing-value texts (`NA`, `N/A`, `NULL`, `None`, `nan`, `#N/A`, `''` and the rest of that list) as NaN. Such cell texts arrive as `Missing`, so Rule 1 flags them and the `3.py` scan reports them as empty.
- `Text.LowerChar` covers only ASCII letters. Python's `str.lower()` maps all of Unicode, but only the extension letters matter to the filter.
- Collection.StaticDataCheckContents assumes distinct sheet names, as in any workbook. With a repeated name the dict keeps the later arrival (`Collection.DuplicateNamesDependOnOrder`).
- Collection.StaticDataCheckOrderIndependent and Collection.StaticDataCheckTotal make the same distinct-names assumption.
- SheetScan.RenderRefs states only the length bound in its own contract. Its contents are stated by `SheetScan.RenderRefsAt` and `SheetScan.RenderRefsStop`.
- CellRefs.CellRef carries no contract of its own. Its meaning is stated by `CellRefs.ParseCellRefRoundTrip` and `CellRefs.CellRefInjective`.
