/** The tabular data the summary works on: a results table as read from a
    CSV file, one map per row from column name to cell value. */
module Frames {

  type ColumnName = string

  /** A cell. `Missing` is pandas' NaN / empty cell; every other value is
      opaque and compared only for equality. */
  datatype Value = Missing | Number(x: real) | Text(s: string)

  type Row = map<ColumnName, Value>

  /** A data frame: its column labels in header order, the columns whose
      dtype pandas infers as numeric, and its rows in file order. */
  datatype Frame = Frame(columns: seq<ColumnName>, numeric: set<ColumnName>, rows: seq<Row>)

  datatype Option<+T> = None | Some(value: T)

  datatype Result<+T, +E> = Success(value: T) | Failure(error: E)

  /** The cell of `row` in column `c`; a column the row lacks reads as missing. */
  function Get(row: Row, c: ColumnName): Value {
    if c in row then row[c] else Missing
  }

  /** The column `c` of a sequence of rows, as a series in row order. */
  function ColumnValues(rows: seq<Row>, c: ColumnName): (vs: seq<Value>)
    ensures |vs| == |rows|
    ensures forall i :: 0 <= i < |rows| ==> vs[i] == Get(rows[i], c)
  {
    seq(|rows|, i requires 0 <= i < |rows| => Get(rows[i], c))
  }
}
