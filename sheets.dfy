/** Spreadsheet cells as pandas hands them to the service. */
module Sheets {

  /** One cell of a row: the sheet has no such column (`row['Name']` raises `KeyError`, while
      `row.get(col, default)` gives the default), the cell is empty (pandas NA), or the cell
      holds a value, given by its `str()` text. */
  datatype Cell = Absent | Blank | Val(text: string)

  /** `str(row.get(col, default))`: `str()` of pandas NA is "nan". */
  function CellText(c: Cell, default: string): string {
    match c
    case Absent => default
    case Blank => "nan"
    case Val(t) => t
  }
}
