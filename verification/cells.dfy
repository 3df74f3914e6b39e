/** One spreadsheet cell value as pandas hands it to the scripts. */
module Cells {

  /** pd.read_excel is called with its default missing-value texts, so a cell
      whose text is one of them ("NA", "N/A", "NULL", "None", "nan", "#N/A",
      "", and the rest of that list) already arrives as Missing, not as Str. */
  datatype Cell =
    | Missing          // NaN or None: no value, or one of the missing-value texts
    | Str(text: string)
    | Other            // a number, date or boolean; its str() form is never blank
}
