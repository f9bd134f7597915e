/**
 * The rows that d3.csv hands to the plot: each row maps a column name of
 * the header to the raw text of its cell.
 */
module Table {
  import opened Wrappers

  type Row = map<string, string>

  /** What `row[name]` yields in JavaScript: the cell text, or `undefined`
      (here `None`) when the row has no such column. */
  type Cell = Option<string>

  function Field(row: Row, name: string): Cell {
    if name in row then Some(row[name]) else None
  }

  /** `rows.map((row) => toNumber(row[name]))`: one number per row. */
  function Column(rows: seq<Row>, name: string, toNumber: Cell -> real): (col: seq<real>)
    ensures |col| == |rows|
    ensures forall i :: 0 <= i < |rows| ==> col[i] == toNumber(Field(rows[i], name))
  {
    seq(|rows|, i requires 0 <= i < |rows| => toNumber(Field(rows[i], name)))
  }
}
