/** rusqlite's `Value` / `ValueRef`: the five storage classes of an SQLite column. */
module SqlTypes {
  import opened Numeric
  import opened Utf8

  datatype SqlValue =
    | Null
    | Integer(i: I64)
    | Real(f: F64)
    | Text(t: Bytes)
    | Blob(b: Bytes)
}
