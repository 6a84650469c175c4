/** Shared vocabulary of the three tools: rows as read from a tab-separated file,
    optional values and results. */
module Tables {

  datatype Option<T> = None | Some(value: T)

  datatype Result<T, E> = Ok(value: T) | Err(error: E)

  /** A row as `csv.DictReader` yields it: column name to cell text. */
  type Row = map<string, string>

  /** `row.get(key)`: the cell, or None when the row has no such column. */
  function Lookup(row: Row, key: string): Option<string>
  {
    if key in row then Some(row[key]) else None
  }

  /** The text a `csv.DictWriter` writes for one column of a row: the value,
      or the empty default when the row lacks the column. */
  function Cell(row: Row, key: string): string
  {
    if key in row then row[key] else ""
  }

  /** One written line of a `csv.DictWriter` with `extrasaction='ignore'`:
      the cells of `fieldnames`, in that order; columns of the row that are
      not field names are dropped. */
  function Project(fieldnames: seq<string>, row: Row): (cells: seq<string>)
    ensures |cells| == |fieldnames|
    ensures forall k :: 0 <= k < |fieldnames| ==> cells[k] == Cell(row, fieldnames[k])
  {
    if fieldnames == [] then [] else [Cell(row, fieldnames[0])] + Project(fieldnames[1..], row)
  }
}
