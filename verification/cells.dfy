/** Cells and rows of the pandas frame that the extraction builds.
    A row is the map from column name to cell; a column that was never
    written in a row reads as absent, as pandas fills it with NaN. */
module Cells {

  /** One table cell: absent (None or NaN), a number, or a string. */
  datatype Cell = Absent | Num(n: real) | Str(s: string)

  type Row = map<string, Cell>

  /** The cell of `row` under `key`; NaN when the column was never written. */
  function Get(row: Row, key: string): Cell
  {
    if key in row then row[key] else Absent
  }
}
