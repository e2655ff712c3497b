/** The values a Lua state hands across to Rust (mlua's `Value`), as far as the SQLite
    bridge sees them. */
module LuaValues {
  import opened Numeric
  import opened Utf8

  datatype Value =
    | Nil
    | Boolean(b: bool)
    /** A light userdata pointer; `Value::NULL` is the null pointer. */
    | LightUserData(address: nat)
    | Integer(i: I64)
    | Number(f: F64)
    /** A Lua string: bytes, not necessarily UTF-8. */
    | String(bytes: Bytes)
    /** A table used as a sequence, `1..n`. */
    | Table(items: seq<Value>)
    /** Functions, threads, full userdata and errors. */
    | Other

  /** `mlua::Value::NULL`. */
  const NULL: Value := LightUserData(0)
}
