/** The Lua-facing database object (src/lua_api/sqlite/mod.rs): the `LiberatedColumn`
    value that travels between SQLite columns and Lua, and how `SQLua::query` turns the
    rows of a statement into Lua tables. The database is not modelled: what a statement
    yields (its column names, its rows, or where it fails) is an input. */
module SqliteLua {
  import opened Wrappers
  import opened Numeric
  import opened Text
  import opened Utf8
  import opened AssocList
  import S = SqlTypes
  import L = LuaValues

  datatype LiberatedColumn =
    | Bool(b: bool)
    | String(s: string)
    | Int(i: I64)
    | Number(f: F64)
    | Blob(bytes: Bytes)
    | Null

  // ---------------------------------------------------------------------------
  // Column values

  /** `FromSql for LiberatedColumn`: never fails; text that is not UTF-8 is kept as a
      blob of the same bytes. */
  function ColumnResult(v: S.SqlValue): LiberatedColumn
  {
    match v
    case Integer(i) => Int(i)
    case Real(f) => Number(f)
    case Text(t) =>
      (match Decode(t)
       case Some(s) => String(s)
       case None => Blob(t))
    case Blob(b) => Blob(b)
    case Null => Null
  }

  /** `ToSql for LiberatedColumn`; a `bool` is stored as the integer 0 or 1. */
  function ToSql(c: LiberatedColumn): S.SqlValue
  {
    match c
    case Bool(b) => S.Integer(if b then 1 else 0)
    case String(s) => S.Text(Encode(s))
    case Int(i) => S.Integer(i)
    case Number(f) => S.Real(f)
    case Blob(b) => S.Blob(b)
    case Null => S.Null
  }

  /** Writing a value to a column and reading it back gives it back, except that a
      `Bool` comes back as the `Int` SQLite stored. */
  lemma ColumnRoundTrip(c: LiberatedColumn)
    ensures ColumnResult(ToSql(c)) == if c.Bool? then Int(if c.b then 1 else 0) else c
  {
    if c.String? {
      DecodeEncode(c.s);
    }
  }

  /** Reading a column and writing the value back gives the column back, except that
      text that is not UTF-8 goes back as a blob of the same bytes. */
  lemma SqlRoundTrip(v: S.SqlValue)
    ensures ToSql(ColumnResult(v)) == if v.Text? && Decode(v.t).None? then S.Blob(v.t) else v
  {
    if v.Text? && Decode(v.t).Some? {
      EncodeDecode(v.t);
    }
  }

  /** The Lua integers of a byte vector, in order. */
  function ByteValues(b: Bytes): seq<L.Value>
  {
    seq(|b|, i requires 0 <= i < |b| => L.Integer(b[i] as int as I64))
  }

  /** `IntoLua for LiberatedColumn`: `Null` becomes the null light userdata, a blob a
      sequence table of its bytes, anything else its payload. */
  function IntoLua(c: LiberatedColumn): L.Value
  {
    match c
    case Bool(b) => L.Boolean(b)
    case String(s) => L.String(Encode(s))
    case Int(i) => L.Integer(i)
    case Number(f) => L.Number(f)
    case Blob(b) => L.Table(ByteValues(b))
    case Null => L.NULL
  }

  /** `FromLua for LiberatedColumn`: strings decode lossily; any other kind of value
      than the five below is the "Only the above are supported" panic. */
  function FromLua(v: L.Value): Result<LiberatedColumn>
  {
    match v
    case Nil => Ok(Null)
    case Boolean(b) => Ok(Bool(b))
    case Integer(i) => Ok(Int(i))
    case Number(f) => Ok(Number(f))
    case String(bytes) => Ok(String(DecodeLossy(bytes)))
    case _ => Err("Only the above are supported")
  }

  /** Handing a value to Lua and taking it back gives it back for booleans, strings,
      integers and numbers; `Null` (sent as a light userdata, not `nil`) and blobs (sent
      as tables) are refused on the way back. */
  lemma LuaRoundTrip(c: LiberatedColumn)
    ensures FromLua(IntoLua(c)) ==
      if c.Null? || c.Blob? then Err("Only the above are supported") else Ok(c)
  {
    if c.String? {
      DecodeEncode(c.s);
      LossyAgreesOnValid(Encode(c.s));
    }
  }

  /** Taking a Lua value and handing it back gives it back, except `nil` (which returns
      as the null light userdata) and strings that are not UTF-8 (which return with
      replacement characters). */
  lemma LuaValueRoundTrip(v: L.Value)
    requires FromLua(v).Ok?
    requires !v.Nil?
    requires v.String? ==> Decode(v.bytes).Some?
    ensures IntoLua(FromLua(v).value) == v
  {
    if v.String? {
      LossyAgreesOnValid(v.bytes);
      EncodeDecode(v.bytes);
    }
  }

  // ---------------------------------------------------------------------------
  // Rows of a query

  /** What running the statement does, as far as the source can tell. */
  datatype Execution =
    /** `query` itself failed. */
    | QueryFailed
    /** The rows stepped through; `stepError` when the step after the last of them
        failed instead of ending the rows. */
    | Stepped(rows: seq<seq<S.SqlValue>>, stepError: bool)

  datatype Dispatch =
    /** The call to the database thread, the transaction or the statement preparation
        failed. */
    | DispatchFailed
    /** The statement was prepared; `headers` are its column names. */
    | Prepared(headers: seq<string>, exec: Execution)

  /** `Statement::column_index`: the first column whose name equals `name`, ignoring
      ASCII case. */
  function ColumnIndex(names: seq<string>, name: string): (r: Option<nat>)
    ensures r.Some? ==> r.value < |names| && EqIgnoreAsciiCase(names[r.value], name)
    ensures r.Some? ==> forall j :: 0 <= j < r.value ==> !EqIgnoreAsciiCase(names[j], name)
    ensures r.None? ==> forall j :: 0 <= j < |names| ==> !EqIgnoreAsciiCase(names[j], name)
  {
    if |names| == 0 then None
    else if EqIgnoreAsciiCase(names[0], name) then Some(0)
    else
      match ColumnIndex(names[1..], name)
      case None => None
      case Some(j) => Some(j + 1)
  }

  /** `row.get::<&str, LiberatedColumn>(name)`; `None` for an unknown name or a column
      the row does not have. */
  function GetByName(names: seq<string>, row: seq<S.SqlValue>, name: string): Option<LiberatedColumn>
  {
    match ColumnIndex(names, name)
    case None => None
    case Some(j) => if j < |row| then Some(ColumnResult(row[j])) else None
  }

  /** The values of the columns called `names` in one row, if every lookup works. */
  function Lookups(headers: seq<string>, row: seq<S.SqlValue>, names: seq<string>): Option<seq<LiberatedColumn>>
  {
    if |names| == 0 then Some([])
    else
      match (Lookups(headers, row, names[..|names| - 1]), GetByName(headers, row, names[|names| - 1]))
      case (Some(vs), Some(v)) => Some(vs + [v])
      case _ => None
  }

  /** The lookups succeed exactly when each name is found in the row, and then give the
      value of each, in the order of the names. */
  lemma {:induction false} LookupsSpec(headers: seq<string>, row: seq<S.SqlValue>, names: seq<string>)
    ensures Lookups(headers, row, names).Some? <==>
      forall k :: 0 <= k < |names| ==> GetByName(headers, row, names[k]).Some?
    ensures Lookups(headers, row, names).Some? ==>
      |Lookups(headers, row, names).value| == |names| && forall k :: 0 <= k < |names| ==> GetByName(headers, row, names[k]) == Some(Lookups(headers, row, names).value[k])
  {
    if |names| > 0 {
      var front := names[..|names| - 1];
      LookupsSpec(headers, row, front);
      assert forall k :: 0 <= k < |front| ==> front[k] == names[k];
    }
  }

  /** The values of one row, one per header in header order, if every lookup works. */
  function RowValues(headers: seq<string>, row: seq<S.SqlValue>): Option<seq<LiberatedColumn>>
  {
    Lookups(headers, row, headers)
  }

  /** The values of all rows, if every row works. */
  function AllRows(headers: seq<string>, rows: seq<seq<S.SqlValue>>): Option<seq<seq<LiberatedColumn>>>
  {
    if |rows| == 0 then Some([])
    else
      match (AllRows(headers, rows[..|rows| - 1]), RowValues(headers, rows[|rows| - 1]))
      case (Some(vss), Some(vs)) => Some(vss + [vs])
      case _ => None
  }

  /** All rows succeed exactly when each row does, and then give the values of each row,
      in row order. */
  lemma {:induction false} AllRowsSpec(headers: seq<string>, rows: seq<seq<S.SqlValue>>)
    ensures AllRows(headers, rows).Some? <==> forall i :: 0 <= i < |rows| ==> RowValues(headers, rows[i]).Some?
    ensures AllRows(headers, rows).Some? ==>
      |AllRows(headers, rows).value| == |rows| && forall i :: 0 <= i < |rows| ==> RowValues(headers, rows[i]) == Some(AllRows(headers, rows).value[i])
  {
    if |rows| > 0 {
      var front := rows[..|rows| - 1];
      AllRowsSpec(headers, front);
      assert forall i :: 0 <= i < |front| ==> front[i] == rows[i];
    }
  }

  /** The `for` over the headers inside the row loop: one lookup per header, the first
      failing one ending the closure with an error. */
  method CollectRow(headers: seq<string>, row: seq<S.SqlValue>) returns (r: Option<seq<LiberatedColumn>>)
    ensures r == RowValues(headers, row)
  {
    var retrow: seq<LiberatedColumn> := [];
    for j := 0 to |headers|
      invariant Lookups(headers, row, headers[..j]) == Some(retrow)
    {
      var got := GetByName(headers, row, headers[j]);
      if got.None? {
        LookupsSpec(headers, row, headers);
        return None;
      }
      assert headers[..j + 1][..j] == headers[..j];
      retrow := retrow + [got.value];
    }
    assert headers[..|headers|] == headers;
    r := Some(retrow);
  }

  /** The `while let` over the rows. */
  method CollectRows(headers: seq<string>, rows: seq<seq<S.SqlValue>>) returns (r: Option<seq<seq<LiberatedColumn>>>)
    ensures r == AllRows(headers, rows)
  {
    var ret: seq<seq<LiberatedColumn>> := [];
    for i := 0 to |rows|
      invariant AllRows(headers, rows[..i]) == Some(ret)
    {
      var retrow := CollectRow(headers, rows[i]);
      if retrow.None? {
        AllRowsSpec(headers, rows);
        return None;
      }
      assert rows[..i + 1][..i] == rows[..i];
      ret := ret + [retrow.value];
    }
    assert rows[..|rows|] == rows;
    r := Some(ret);
  }

  /** The headers and rows `query` goes on with: a failing dispatch and a failing step or
      lookup give neither; a failing statement keeps the headers but gives no rows. */
  function Collected(d: Dispatch): (seq<string>, seq<seq<LiberatedColumn>>)
  {
    match d
    case DispatchFailed => ([], [])
    case Prepared(h, QueryFailed) => (h, [])
    case Prepared(h, Stepped(rows, stepError)) =>
      match AllRows(h, rows)
      case None => ([], [])
      case Some(vs) => if stepError then ([], []) else (h, vs)
  }

  /** The `(header, value)` pairs of `zip(headers, row)`, values handed to Lua. */
  function Pairs(headers: seq<string>, vals: seq<LiberatedColumn>): seq<(string, L.Value)>
  {
    var n := if |headers| < |vals| then |headers| else |vals|;
    seq(n, k requires 0 <= k < n => (headers[k], IntoLua(vals[k])))
  }

  /** The Lua table of one row: each pair set in turn. */
  function RowTable(headers: seq<string>, vals: seq<LiberatedColumn>): AList<string, L.Value>
  {
    FromSeq(Pairs(headers, vals))
  }

  /** The sequence of row tables `query` returns. */
  function RowTables(c: (seq<string>, seq<seq<LiberatedColumn>>)): seq<AList<string, L.Value>>
  {
    seq(|c.1|, i requires 0 <= i < |c.1| => RowTable(c.0, c.1[i]))
  }

  /** The inner loop of the table building: `t.set(header, val)` for each zipped pair. */
  method BuildRowTable(headers: seq<string>, vals: seq<LiberatedColumn>) returns (t: AList<string, L.Value>)
    ensures t == RowTable(headers, vals)
  {
    var n := if |headers| < |vals| then |headers| else |vals|;
    ghost var pairs := Pairs(headers, vals);
    t := [];
    for j := 0 to n
      invariant t == FromSeq(pairs[..j])
    {
      assert pairs[..j + 1] == pairs[..j] + [(headers[j], IntoLua(vals[j]))];
      FromSeqSnoc(pairs[..j], headers[j], IntoLua(vals[j]));
      t := Insert(t, headers[j], IntoLua(vals[j]));
    }
    assert pairs[..n] == pairs;
  }

  /** `SQLua::query`, from what the statement does to the Lua tables it returns. */
  method Query(d: Dispatch) returns (tables: seq<AList<string, L.Value>>)
    ensures tables == RowTables(Collected(d))
  {
    var headers: seq<string>, rows: seq<seq<LiberatedColumn>>;
    match d {
      case DispatchFailed =>
        headers, rows := [], [];
      case Prepared(h, exec) =>
        match exec {
          case QueryFailed =>
            headers, rows := h, [];
          case Stepped(raw, stepError) =>
            var got := CollectRows(h, raw);
            if got.None? || stepError {
              headers, rows := [], [];
            } else {
              headers, rows := h, got.value;
            }
        }
    }
    assert (headers, rows) == Collected(d);
    tables := [];
    for i := 0 to |rows|
      invariant |tables| == i
      invariant forall k :: 0 <= k < i ==> tables[k] == RowTable(headers, rows[k])
    {
      var t := BuildRowTable(headers, rows[i]);
      tables := tables + [t];
    }
  }

  /** Every row that `query` goes on with holds exactly one value per header. */
  lemma CollectedRowsFit(d: Dispatch)
    ensures forall i :: 0 <= i < |Collected(d).1| ==> |Collected(d).1[i]| == |Collected(d).0|
    ensures d.DispatchFailed? ==> Collected(d) == ([], [])
    ensures d.Prepared? && d.exec.QueryFailed? ==> Collected(d) == (d.headers, [])
    ensures d.Prepared? && d.exec.Stepped? && d.exec.stepError ==> Collected(d) == ([], [])
  {
    if d.Prepared? && d.exec.Stepped? && AllRows(d.headers, d.exec.rows).Some? {
      var h, raw := d.headers, d.exec.rows;
      AllRowsSpec(h, raw);
      forall i | 0 <= i < |raw| ensures |AllRows(h, raw).value[i]| == |h| {
        LookupsSpec(h, raw[i], h);
      }
    }
  }

  /** Column names no two of which are equal ignoring ASCII case. */
  predicate CaseDistinct(names: seq<string>)
  {
    forall j, k :: 0 <= j < k < |names| ==> !EqIgnoreAsciiCase(names[j], names[k])
  }

  lemma ColumnIndexOwn(names: seq<string>, j: nat)
    requires CaseDistinct(names) && j < |names|
    ensures ColumnIndex(names, names[j]) == Some(j)
  {
    assert EqIgnoreAsciiCase(names[j], names[j]);
    var r := ColumnIndex(names, names[j]);
    if r.None? || r.value != j {
      assert false;
    }
  }

  /** With headers distinct ignoring case and rows as wide as the headers, no lookup
      fails and each row's values are its columns, converted, in column order. */
  lemma DistinctHeadersPositional(h: seq<string>, raw: seq<seq<S.SqlValue>>)
    requires CaseDistinct(h)
    requires forall i :: 0 <= i < |raw| ==> |raw[i]| == |h|
    ensures Collected(Prepared(h, Stepped(raw, false))).0 == h
    ensures var rows := Collected(Prepared(h, Stepped(raw, false))).1;
      |rows| == |raw| &&
      forall i :: 0 <= i < |raw| ==>
        |rows[i]| == |h| && forall j :: 0 <= j < |h| ==> rows[i][j] == ColumnResult(raw[i][j])
  {
    forall j | 0 <= j < |h| ensures ColumnIndex(h, h[j]) == Some(j) {
      ColumnIndexOwn(h, j);
    }
    forall i | 0 <= i < |raw|
      ensures RowValues(h, raw[i]).Some? && |RowValues(h, raw[i]).value| == |h|
      ensures forall j :: 0 <= j < |h| ==> RowValues(h, raw[i]).value[j] == ColumnResult(raw[i][j])
    {
      LookupsSpec(h, raw[i], h);
    }
    AllRowsSpec(h, raw);
  }

  /** In a row table every header maps to its value when the headers are distinct; in
      general each key holds the value of its last header, as repeated `set`s leave it. */
  lemma RowTableLookup(headers: seq<string>, vals: seq<LiberatedColumn>)
    ensures forall k :: Lookup(RowTable(headers, vals), k) == LastValue(Pairs(headers, vals), k)
    ensures |vals| == |headers| && (forall j, k :: 0 <= j < k < |headers| ==> headers[j] != headers[k]) ==>
      forall j :: 0 <= j < |headers| ==> Lookup(RowTable(headers, vals), headers[j]) == Some(IntoLua(vals[j]))
  {
    var pairs := Pairs(headers, vals);
    FromSeqLookup(pairs);
    if |vals| == |headers| && (forall j, k :: 0 <= j < k < |headers| ==> headers[j] != headers[k]) {
      assert DistinctKeys(pairs);
      FromSeqDistinct(pairs);
      forall j | 0 <= j < |headers| ensures Lookup(RowTable(headers, vals), headers[j]) == Some(IntoLua(vals[j])) {
        LookupDistinct(pairs, j);
      }
    }
  }
}
