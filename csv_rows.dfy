/**
 * A CSV data row as the CSV readers of the scripts deliver it with `columns: true`: the
 * map from column name to cell text. A column the file does not have is absent from the
 * map, so reading it gives `undefined`.
 */
module CsvRows {
  import opened Wrappers

  type Row = map<string, string>

  /** `r[key]`, `None` for `undefined`. */
  function Cell(r: Row, key: string): (v: Option<string>)
    ensures v.Some? <==> key in r
  {
    if key in r then Some(r[key]) else None
  }
}
