/** The tabular values that flow from the data files to the sheet. */
module Tables {
  import opened Wrappers

  /** One cell as read from a data file; `None` is a missing value (a NaN after parsing). */
  type Cell = Option<string>

  type Row = seq<Cell>

  /** A parsed table: its column names and its rows, in file order. */
  datatype Table = Table(header: seq<string>, rows: seq<Row>)

  /** Every row has one cell per column, and there is at least one column
      (a data file without columns does not parse). */
  predicate WellFormed(t: Table)
  {
    |t.header| > 0 && forall i :: 0 <= i < |t.rows| ==> |t.rows[i]| == |t.header|
  }

  /** Every row has a first cell, so every row has a key. */
  predicate HasKeys(rows: seq<Row>)
  {
    forall i :: 0 <= i < |rows| ==> |rows[i]| > 0
  }

  /** The key of a row is its first column ("column A"). */
  function Key(row: Row): Cell
    requires |row| > 0
  {
    row[0]
  }
}
