/** Rule 1 of the configuration-table checker (tool_show.py, _execute_rule1):
    in the ID column of every workbook, report the rows that have no ID, but
    not the unused rows after the last real ID. */
module IdColumn {
  import opened Basics
  import opened Cells
  import Text

  /** The column is read with header=5, so sheet row 6 is the header and the
      value at data index i sits on sheet row i + 7. */
  const FirstDataRow: nat := 7

  /** The flag test: a missing value, or a text equal to the empty string.
      The comparison is exact, so whitespace-only text is not flagged. */
  predicate IsFlagged(c: Cell)
  {
    c.Missing? || c == Str("")
  }

  /** The end-of-data test: a missing value, or one whose text is empty once
      stripped of whitespace. */
  predicate IsBlank(c: Cell)
  {
    c.Missing? || (c.Str? && Text.Strip(c.text) == "")
  }

  /** Every flagged value is blank; a non-empty whitespace-only text is blank
      but not flagged. */
  lemma FlaggedIsBlank(c: Cell)
    ensures IsFlagged(c) ==> IsBlank(c)
    ensures c.Str? && c.text != "" && Text.AllSpace(c.text) ==> IsBlank(c) && !IsFlagged(c)
  {
  }

  predicate StrictlyIncreasing(rows: seq<nat>)
  {
    forall i, j | 0 <= i < j < |rows| :: rows[i] < rows[j]
  }

  lemma IncreasingAppend(rows: seq<nat>, x: nat)
    requires StrictlyIncreasing(rows)
    requires forall r | r in rows :: r < x
    ensures StrictlyIncreasing(rows + [x])
  {
    forall i, j | 0 <= i < j < |rows| + 1 ensures (rows + [x])[i] < (rows + [x])[j] {
      assert (rows + [x])[i] == rows[i];
      if j == |rows| {
        assert rows[i] in rows;
      }
    }
  }

  lemma IncreasingPrepend(x: nat, rows: seq<nat>)
    requires StrictlyIncreasing(rows)
    requires forall r | r in rows :: x < r
    ensures StrictlyIncreasing([x] + rows)
  {
    forall i, j | 0 <= i < j < |rows| + 1 ensures ([x] + rows)[i] < ([x] + rows)[j] {
      assert ([x] + rows)[j] == rows[j - 1];
      if i == 0 {
        assert rows[j - 1] in rows;
      }
    }
  }

  /** The sheet rows appended to empty_rows while enumerating the column:
      row i + 7 for each flagged index i, in ascending order. */
  function FlaggedRows(col: seq<Cell>): (rows: seq<nat>)
    ensures forall r :: r in rows <==>
              FirstDataRow <= r < FirstDataRow + |col| && IsFlagged(col[r - FirstDataRow])
    ensures StrictlyIncreasing(rows)
    ensures forall r | r in rows :: r < FirstDataRow + |col|
  {
    if |col| == 0 then []
    else
      var init := FlaggedRows(col[..|col| - 1]);
      if IsFlagged(col[|col| - 1]) then
        IncreasingAppend(init, |col| - 1 + FirstDataRow);
        init + [|col| - 1 + FirstDataRow]
      else init
  }

  /** The index the backwards while loop stops at: the last value that is not
      blank, or -1 when every value is blank. */
  function LastNonBlank(col: seq<Cell>): (k: int)
    ensures -1 <= k < |col|
    ensures k >= 0 ==> !IsBlank(col[k])
    ensures forall j | k < j < |col| :: IsBlank(col[j])
  {
    if |col| == 0 then -1
    else if !IsBlank(col[|col| - 1]) then |col| - 1
    else
      var init := col[..|col| - 1];
      var k := LastNonBlank(init);
      assert k >= 0 ==> col[k] == init[k];
      assert forall j | k < j < |col| :: IsBlank(col[j]) by {
        forall j | k < j < |col| ensures IsBlank(col[j]) {
          if j < |col| - 1 {
            assert col[j] == init[j];
          }
        }
      }
      k
  }

  /** The three properties above single out LastNonBlank. */
  lemma LastNonBlankUnique(col: seq<Cell>, k: int)
    requires -1 <= k < |col|
    requires k >= 0 ==> !IsBlank(col[k])
    requires forall j | k < j < |col| :: IsBlank(col[j])
    ensures k == LastNonBlank(col)
  {
  }

  /** The list comprehension that keeps the rows up to `limit`. */
  function KeepUpTo(rows: seq<nat>, limit: int): (kept: seq<nat>)
    ensures Subseq(kept, rows)
    ensures forall r :: r in kept <==> r in rows && r <= limit
    ensures StrictlyIncreasing(rows) ==> StrictlyIncreasing(kept)
  {
    if |rows| == 0 then []
    else
      var rest := KeepUpTo(rows[1..], limit);
      assert rows == [rows[0]] + rows[1..];
      assert StrictlyIncreasing(rows) ==> forall r | r in rows[1..] :: rows[0] < r;
      if rows[0] <= limit then
        assert ([rows[0]] + rest)[1..] == rest;
        assert StrictlyIncreasing(rows) ==> StrictlyIncreasing([rows[0]] + rest) by {
          if StrictlyIncreasing(rows) {
            IncreasingPrepend(rows[0], rest);
          }
        }
        [rows[0]] + rest
      else rest
  }

  /** Filtering again with the same limit changes nothing. */
  lemma {:induction false} KeepUpToIdempotent(rows: seq<nat>, limit: int)
    ensures KeepUpTo(KeepUpTo(rows, limit), limit) == KeepUpTo(rows, limit)
  {
    if |rows| > 0 {
      KeepUpToIdempotent(rows[1..], limit);
      var rest := KeepUpTo(rows[1..], limit);
      if rows[0] <= limit {
        assert ([rows[0]] + rest)[1..] == rest;
      }
    }
  }

  /** Some value at index i or later is a real ID (not blank). */
  predicate RealIdFrom(col: seq<Cell>, i: int)
  {
    exists j | 0 <= j < |col| && i <= j :: !IsBlank(col[j])
  }

  lemma RealIdFromIffBeforeLast(col: seq<Cell>, i: int)
    ensures RealIdFrom(col, i) <==> i <= LastNonBlank(col) && LastNonBlank(col) >= 0
  {
    var last := LastNonBlank(col);
    if i <= last && last >= 0 {
      assert !IsBlank(col[last]);
    }
  }

  /** Sheet row r holds a flagged value and a real ID follows on it or after it. */
  predicate FlaggedBeforeRealId(col: seq<Cell>, r: int)
  {
    && FirstDataRow <= r < FirstDataRow + |col|
    && IsFlagged(col[r - FirstDataRow])
    && RealIdFrom(col, r - FirstDataRow)
  }

  /** The rows reported for one column: the flagged rows up to the last real
      ID. A row is reported exactly when its value is flagged and a real ID
      follows on it or after it; the report is ascending and a subsequence of
      the flagged rows. */
  function TrimmedRows(col: seq<Cell>): (rows: seq<nat>)
    ensures forall r: int :: r in rows <==> FlaggedBeforeRealId(col, r)
    ensures StrictlyIncreasing(rows)
    ensures Subseq(rows, FlaggedRows(col))
  {
    var rows := KeepUpTo(FlaggedRows(col), LastNonBlank(col) + FirstDataRow);
    assert forall r: int :: r in rows <==> FlaggedBeforeRealId(col, r) by {
      forall r: int ensures r in rows <==> FlaggedBeforeRealId(col, r) {
        RealIdFromIffBeforeLast(col, r - FirstDataRow);
      }
    }
    rows
  }

  /** A flagged row that is dropped lies in the trailing run of blank values:
      it and every value after it are blank. */
  lemma DroppedRowsAreTrailing(col: seq<Cell>, r: nat)
    requires r in FlaggedRows(col) && r !in TrimmedRows(col)
    ensures forall j | r - FirstDataRow <= j < |col| :: IsBlank(col[j])
  {
  }

  lemma {:induction false} NothingKept(rows: seq<nat>, limit: int)
    requires forall r | r in rows :: limit < r
    ensures KeepUpTo(rows, limit) == []
  {
    if |rows| > 0 {
      assert rows[0] in rows;
      assert forall r | r in rows[1..] :: r in rows;
      NothingKept(rows[1..], limit);
    }
  }

  /** A column with no real ID at all reports nothing: the limit becomes 6 and
      every flagged row is at least 7. */
  lemma AllBlankReportsNothing(col: seq<Cell>)
    requires forall i | 0 <= i < |col| :: IsBlank(col[i])
    ensures LastNonBlank(col) == -1
    ensures TrimmedRows(col) == []
  {
    LastNonBlankUnique(col, -1);
    NothingKept(FlaggedRows(col), FirstDataRow - 1);
  }

  /** Trimming an already trimmed report with the same limit is a no-op. */
  lemma TrimIdempotent(col: seq<Cell>)
    ensures KeepUpTo(TrimmedRows(col), LastNonBlank(col) + FirstDataRow) == TrimmedRows(col)
  {
    KeepUpToIdempotent(FlaggedRows(col), LastNonBlank(col) + FirstDataRow);
  }

  /** An example column on sheet rows 7 to 10: an empty text, a
      whitespace-only text `sp`, an ID `z` and a missing value. */
  function ExampleColumn(sp: string, z: string): seq<Cell>
  {
    [Str(""), Str(sp), Str(z), Missing]
  }

  /** Appending a value to the column adds its row to the flagged rows when
      it is flagged, and nothing otherwise. */
  lemma FlaggedRowsSnoc(col: seq<Cell>, c: Cell)
    ensures FlaggedRows(col + [c]) == FlaggedRows(col) + (if IsFlagged(c) then [|col| + FirstDataRow] else [])
  {
    assert (col + [c])[..|col|] == col;
  }

  /** Appending a value makes it the last real ID unless it is blank. */
  lemma LastNonBlankSnoc(col: seq<Cell>, c: Cell)
    ensures LastNonBlank(col + [c]) == if IsBlank(c) then LastNonBlank(col) else |col|
  {
    assert (col + [c])[..|col|] == col;
  }

  /** Rows 7 and 10 are flagged; row 8 holds only spaces, so it is not. */
  lemma ExampleColumnFlagged(sp: string, z: string)
    requires sp != "" && z != ""
    ensures FlaggedRows(ExampleColumn(sp, z)) == [7, 10]
  {
    var c1 := [Str("")];
    var c2 := c1 + [Str(sp)];
    var c3 := c2 + [Str(z)];
    assert c3 + [Missing] == ExampleColumn(sp, z);
    assert FlaggedRows(c1) == [7] by {
      FlaggedRowsSnoc([], Str(""));
      assert [] + [Str("")] == c1;
    }
    assert FlaggedRows(c3) == [7] by {
      FlaggedRowsSnoc(c1, Str(sp));
      FlaggedRowsSnoc(c2, Str(z));
    }
    FlaggedRowsSnoc(c3, Missing);
  }

  /** With a real ID `z` on row 9, row 7 is reported and row 10 is dropped
      as trailing. */
  lemma ExampleColumnTrimmed(sp: string, z: string)
    requires sp != "" && Text.AllSpace(sp) && !Text.AllSpace(z)
    ensures LastNonBlank(ExampleColumn(sp, z)) == 2
    ensures TrimmedRows(ExampleColumn(sp, z)) == [7]
  {
    var col := ExampleColumn(sp, z);
    assert LastNonBlank(col) == 2 by {
      var c3 := [Str(""), Str(sp), Str(z)];
      assert c3 + [Missing] == col;
      assert c3[..2] + [Str(z)] == c3;
      LastNonBlankSnoc(c3[..2], Str(z));
      LastNonBlankSnoc(c3, Missing);
    }
    ExampleColumnFlagged(sp, z);
    assert KeepUpTo([7, 10], 9) == [7] by {
      assert [7, 10][1..] == [10];
      assert KeepUpTo([10], 9) == [];
    }
  }

  /** One line of the rule's output. */
  datatype Line =
    | NoExcelFiles                            // no workbook was found at all
    | Checking(file: string)                  // "checking file ..."
    | MissingId(file: string, row: nat)       // "file ... row ... has no ID"
    | ReadFailed(file: string, reason: string)  // "file ... could not be read: ..."

  /** What pd.read_excel gives for the ID column of one workbook: the values,
      or the message of the exception it raised. */
  datatype ColumnRead = Column(values: seq<Cell>) | ReadError(reason: string)

  datatype ExcelFile = ExcelFile(path: string, read: ColumnRead)

  function MissingIdLines(path: string, rows: seq<nat>): (lines: seq<Line>)
  {
    seq(|rows|, i requires 0 <= i < |rows| => MissingId(path, rows[i]))
  }

  /** The lines one workbook contributes. */
  function FileReport(f: ExcelFile): (lines: seq<Line>)
    ensures |lines| >= 1 && lines[0] == Checking(f.path)
    ensures forall l | l in lines :: !l.NoExcelFiles? && l.file == f.path
    ensures f.read.ReadError? ==> lines == [Checking(f.path), ReadFailed(f.path, f.read.reason)]
    ensures f.read.Column? ==>
              && |lines| == 1 + |TrimmedRows(f.read.values)|
              && forall i | 1 <= i < |lines| ::
                   lines[i] == MissingId(f.path, TrimmedRows(f.read.values)[i - 1])
  {
    match f.read
    case ReadError(reason) => [Checking(f.path), ReadFailed(f.path, reason)]
    case Column(values) => [Checking(f.path)] + MissingIdLines(f.path, TrimmedRows(values))
  }

  /** The paths of the workbooks. */
  function Paths(files: seq<ExcelFile>): set<string>
  {
    set f | f in files :: f.path
  }

  /** Each workbook's lines, in file order. */
  function FileReports(files: seq<ExcelFile>): seq<seq<Line>>
  {
    seq(|files|, i requires 0 <= i < |files| => FileReport(files[i]))
  }

  /** The workbooks' reports one after the other. Every line names one of the
      workbooks, and the first one checked comes first. */
  function Reports(files: seq<ExcelFile>): (lines: seq<Line>)
    ensures forall l | l in lines :: !l.NoExcelFiles? && l.file in Paths(files)
    ensures |files| > 0 ==> |lines| > 0 && lines[0] == Checking(files[0].path)
  {
    var reports := FileReports(files);
    assert forall l | l in Flatten(reports) :: !l.NoExcelFiles? && l.file in Paths(files) by {
      forall l | l in Flatten(reports) ensures !l.NoExcelFiles? && l.file in Paths(files) {
        FlattenMember(reports, l);
        var i :| 0 <= i < |reports| && l in reports[i];
        assert files[i] in files;
      }
    }
    if |files| > 0 then
      assert Flatten(reports) == reports[0] + Flatten(reports[1..]);
      Flatten(reports)
    else Flatten(reports)
  }

  /** The whole rule's output for the workbooks found: the "no Excel file"
      line exactly when there are none, else the reports starting with the
      first workbook. */
  function Rule1Report(files: seq<ExcelFile>): (lines: seq<Line>)
    ensures NoExcelFiles in lines <==> files == []
    ensures files == [] ==> lines == [NoExcelFiles]
    ensures files != [] ==> |lines| > 0 && lines[0] == Checking(files[0].path)
    ensures forall l | l in lines && !l.NoExcelFiles? :: l.file in Paths(files)
  {
    if |files| == 0 then [NoExcelFiles] else Reports(files)
  }

  /** Reports of two batches of workbooks are independent: what one workbook
      (failed or not) reports never depends on the workbooks before it. */
  lemma ReportsConcat(fs: seq<ExcelFile>, gs: seq<ExcelFile>)
    ensures Reports(fs + gs) == Reports(fs) + Reports(gs)
  {
    assert FileReports(fs + gs) == FileReports(fs) + FileReports(gs);
    FlattenAppend(FileReports(fs), FileReports(gs));
  }

  /** One workbook's report is its own lines. */
  lemma ReportsSingle(f: ExcelFile)
    ensures Reports([f]) == FileReport(f)
  {
    assert FileReports([f]) == [FileReport(f)];
    assert Flatten([FileReport(f)]) == FileReport(f) + Flatten([]);
  }

  /** A workbook whose read raises adds its checking line and its failure
      line, and the workbooks after it are still reported. */
  lemma FailedFileIsolated(fs: seq<ExcelFile>, bad: ExcelFile, gs: seq<ExcelFile>)
    requires bad.read.ReadError?
    ensures Rule1Report(fs + [bad] + gs)
         == Reports(fs) + [Checking(bad.path), ReadFailed(bad.path, bad.read.reason)] + Reports(gs)
  {
    ReportsConcat(fs + [bad], gs);
    ReportsConcat(fs, [bad]);
    ReportsSingle(bad);
  }

  /** The flagging loop: enumerate the column and collect row index + 7 of
      each flagged value. */
  method FlagColumn(data: seq<Cell>) returns (emptyRows: seq<nat>)
    ensures emptyRows == FlaggedRows(data)
  {
    emptyRows := [];
    for index := 0 to |data|
      invariant emptyRows == FlaggedRows(data[..index])
    {
      assert data[..index + 1][..index] == data[..index];
      if IsFlagged(data[index]) {
        emptyRows := emptyRows + [index + FirstDataRow];
      }
    }
    assert data[..|data|] == data;
  }

  /** The backwards while loop that locates the last real ID. */
  method FindLastNonEmpty(data: seq<Cell>) returns (lastNonEmpty: int)
    ensures -1 <= lastNonEmpty < |data|
    ensures lastNonEmpty >= 0 ==> !IsBlank(data[lastNonEmpty])
    ensures forall j | lastNonEmpty < j < |data| :: IsBlank(data[j])
  {
    lastNonEmpty := |data| - 1;
    while lastNonEmpty >= 0 && IsBlank(data[lastNonEmpty])
      invariant -1 <= lastNonEmpty < |data|
      invariant forall j | lastNonEmpty < j < |data| :: IsBlank(data[j])
    {
      lastNonEmpty := lastNonEmpty - 1;
    }
  }

  /** The inner loop that prints one line per reported row. */
  method ReportRows(path: string, rows: seq<nat>) returns (lines: seq<Line>)
    ensures lines == MissingIdLines(path, rows)
  {
    lines := [];
    for k := 0 to |rows|
      invariant lines == MissingIdLines(path, rows[..k])
    {
      assert rows[..k + 1] == rows[..k] + [rows[k]];
      lines := lines + [MissingId(path, rows[k])];
    }
    assert rows[..|rows|] == rows;
  }

  /** The body of the loop over workbooks for one file. It starts with the
      shared empty_rows list empty and leaves it empty again. */
  method CheckFile(file: ExcelFile, emptyRows: seq<nat>) returns (lines: seq<Line>, emptyRows': seq<nat>)
    requires emptyRows == []
    ensures emptyRows' == []
    ensures lines == FileReport(file)
  {
    lines := [Checking(file.path)];
    emptyRows' := emptyRows;
    match file.read {
      case ReadError(reason) =>
        lines := lines + [ReadFailed(file.path, reason)];
      case Column(data) =>
        var flagged := FlagColumn(data);
        emptyRows' := emptyRows' + flagged;
        assert emptyRows' == FlaggedRows(data);
        if emptyRows' != [] {
          var lastNonEmpty := FindLastNonEmpty(data);
          LastNonBlankUnique(data, lastNonEmpty);
          emptyRows' := KeepUpTo(emptyRows', lastNonEmpty + FirstDataRow);
          assert emptyRows' == TrimmedRows(data);
          var missing := ReportRows(file.path, emptyRows');
          lines := lines + missing;
          emptyRows' := [];
        } else {
          assert TrimmedRows(data) == [];
          assert MissingIdLines(file.path, []) == [];
        }
    }
  }

  /** _execute_rule1 as written: one pass over the workbooks sharing the
      empty_rows list, which every file's report leaves empty, so the output
      is the per-file reports one after the other. */
  method ExecuteRule1(files: seq<ExcelFile>) returns (output: seq<Line>)
    ensures output == Rule1Report(files)
  {
    if |files| == 0 {
      return [NoExcelFiles];
    }
    output := [];
    var emptyRows: seq<nat> := [];
    for n := 0 to |files|
      invariant emptyRows == []
      invariant output == Reports(files[..n])
    {
      assert files[..n + 1] == files[..n] + [files[n]];
      var lines;
      lines, emptyRows := CheckFile(files[n], emptyRows);
      ReportsConcat(files[..n], [files[n]]);
      ReportsSingle(files[n]);
      output := output + lines;
    }
    assert files[..|files|] == files;
  }
}
