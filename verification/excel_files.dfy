/** The file-name filter of find_excel_files in tool_show.py: which names the
    directory walk keeps as workbooks. */
module ExcelFiles {
  import opened Basics
  import opened Text

  /** The lower-cased name ends with one of the two workbook extensions. */
  predicate IsExcelFileName(name: string)
  {
    EndsWith(Lower(name), ".xlsx") || EndsWith(Lower(name), ".xls")
  }

  /** One file the directory walk reports: the directory it sits in and its base name. */
  datatype WalkEntry = WalkEntry(dir: string, name: string)

  /** The entries of the walk whose base name passes the filter, in walk order. */
  function SelectExcelFiles(entries: seq<WalkEntry>): (picked: seq<WalkEntry>)
    ensures Subseq(picked, entries)
    ensures forall e :: e in picked <==> e in entries && IsExcelFileName(e.name)
  {
    if |entries| == 0 then []
    else
      var rest := SelectExcelFiles(entries[1..]);
      assert forall e | e in entries :: e == entries[0] || e in entries[1..];
      if IsExcelFileName(entries[0].name) then [entries[0]] + rest else rest
  }

  /** Names whose last extension is .xlsx or .xls in any letter case are kept. */
  lemma AcceptedNames()
    ensures IsExcelFileName("a.xlsx")
    ensures IsExcelFileName("B.XLS")
    ensures IsExcelFileName("c.XlSx")
  {
    AcceptedLowerXlsx();
    AcceptedUpperXls();
    AcceptedMixedXlsx();
  }

  lemma AcceptedLowerXlsx()
    ensures IsExcelFileName("a.xlsx")
  {
    var a := Lower("a.xlsx");
    assert a[1] == '.' && a[2] == 'x' && a[3] == 'l' && a[4] == 's' && a[5] == 'x';
    EndsWithByChars(a, ".xlsx");
  }

  lemma AcceptedUpperXls()
    ensures IsExcelFileName("B.XLS")
  {
    var b := Lower("B.XLS");
    assert b[1] == '.' && b[2] == 'x' && b[3] == 'l' && b[4] == 's';
    EndsWithByChars(b, ".xls");
  }

  lemma AcceptedMixedXlsx()
    ensures IsExcelFileName("c.XlSx")
  {
    var c := Lower("c.XlSx");
    assert c[1] == '.' && c[2] == 'x' && c[3] == 'l' && c[4] == 's' && c[5] == 'x';
    EndsWithByChars(c, ".xlsx");
  }

  /** A name ends with a suffix when it is long enough and agrees with the
      suffix character by character at its end. */
  lemma EndsWithByChars(s: string, suffix: string)
    requires |suffix| <= |s|
    requires forall i | 0 <= i < |suffix| :: s[|s| - |suffix| + i] == suffix[i]
    ensures EndsWith(s, suffix)
  {
    assert s[|s| - |suffix|..] == suffix;
  }

  /** A name whose character at position i from the end of the suffix
      differs does not end with it. */
  lemma NotEndsWith(s: string, suffix: string, i: nat)
    requires |suffix| <= |s| ==> i < |suffix| && s[|s| - |suffix| + i] != suffix[i]
    ensures !EndsWith(s, suffix)
  {
  }

  /** ".xlsm", a bare "xlsx" without a dot and a later extension are rejected. */
  lemma RejectedNames()
    ensures !IsExcelFileName("m.xlsm")
    ensures !IsExcelFileName("xlsx")
    ensures !IsExcelFileName("a.xlsx.bak")
  {
    var m := Lower("m.xlsm");
    assert |m| == 6 && m[5] == 'm';
    NotEndsWith(m, ".xlsx", 4);
    NotEndsWith(m, ".xls", 3);
    var x := Lower("xlsx");
    assert |x| == 4 && x[0] == 'x';
    NotEndsWith(x, ".xlsx", 0);
    NotEndsWith(x, ".xls", 0);
    var b := Lower("a.xlsx.bak");
    assert |b| == 10 && b[9] == 'k';
    NotEndsWith(b, ".xlsx", 4);
    NotEndsWith(b, ".xls", 3);
  }

  /** Lower-casing a name first does not change whether it is selected. */
  lemma ExcelFileNameIgnoresCase(name: string)
    ensures IsExcelFileName(Lower(name)) <==> IsExcelFileName(name)
  {
    assert Lower(Lower(name)) == Lower(name);
  }
}
