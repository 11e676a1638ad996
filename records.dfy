/**
 * A result row as the page receives it from the analytic table: column names
 * mapped to cell values. A column the row lacks is absent from the map; a SQL
 * NULL (pandas' `None`/`NaN`) is `Null`.
 */
module Records {

  datatype Value = Null | Text(s: string) | Number(n: int)

  type Row = map<string, Value>

  /** `Series.get(field, default)`: the cell when the column exists, else the default. */
  function Get(row: Row, field: string, default: Value): (v: Value)
    ensures field in row ==> v == row[field]
    ensures field !in row ==> v == default
  {
    if field in row then row[field] else default
  }
}
