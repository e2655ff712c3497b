/** The file record of the catalog store and the attribute values it exports
    (src/db/mod.rs): `FileRecord::as_object_attrs` and the `AttrValue`
    conversions to and from SQLite column values and to text. */
module Db {
  import opened Wrappers
  import opened Numeric
  import opened Text
  import opened Utf8
  import opened SqlTypes

  /** One row of the `Files` table. */
  datatype FileRecord = FileRecord(
    fileUuid: string,
    fileName: string,
    fileSizeBytes: U64,
    fileHash: string,
    fileDirPath: string,
    fileExtensionTag: string,
    fileEncoding: string,
    mediaTypeOverrideId: Option<string>,
    fileDeleted: bool,
    fileReadOnly: bool,
    fileVfsPath: string)

  /** A typed attribute value; the variants keep the source's names. */
  datatype AttrValue =
    | STRING(s: string)
    | INT(i: I64)
    | FLOAT(f: F64)
    | BYTES(b: Bytes)
    | NONE

  datatype ObjectAttr = ObjectAttr(objectUuid: string, attributeName: string, attributeValue: AttrValue)

  /** The attribute names `as_object_attrs` emits, in its order. */
  const ExportedNames: seq<string> :=
    ["filename", "size", "hash", "dir", "extension", "encoding", "media_type", "read_only", "id"]

  /** `FileRecord::as_object_attrs`: the file's fields as attributes of the object with the
      same uuid. */
  function AsObjectAttrs(f: FileRecord): seq<ObjectAttr>
  {
    var id := f.fileUuid;
    [ ObjectAttr(id, "filename", STRING(f.fileName)),
      ObjectAttr(id, "size", INT(WrapToI64(f.fileSizeBytes))),
      ObjectAttr(id, "hash", STRING(f.fileHash)),
      ObjectAttr(id, "dir", STRING(f.fileDirPath)),
      ObjectAttr(id, "extension", STRING(f.fileExtensionTag)),
      ObjectAttr(id, "encoding", STRING(f.fileEncoding)),
      ObjectAttr(id, "media_type", match f.mediaTypeOverrideId
                                   case Some(s) => STRING(s)
                                   case None => NONE),
      ObjectAttr(id, "read_only", INT(if f.fileReadOnly then 1 else 0)),
      ObjectAttr(id, "id", BYTES(Encode(f.fileUuid))) ]
  }

  /** Nine attributes named in the source's order, all on the file's uuid; the media
      type is absent exactly when there is no override, read-only is 1 or 0, the size is
      the unsigned size reinterpreted as signed, and the id bytes decode to the uuid. */
  lemma AsObjectAttrsShape(f: FileRecord)
    ensures var r := AsObjectAttrs(f);
      |r| == |ExportedNames| == 9 &&
      (forall i :: 0 <= i < |r| ==> r[i].objectUuid == f.fileUuid && r[i].attributeName == ExportedNames[i]) &&
      (r[6].attributeValue.NONE? <==> f.mediaTypeOverrideId.None?) &&
      (r[7].attributeValue == INT(1) <==> f.fileReadOnly) &&
      (r[7].attributeValue == INT(0) <==> !f.fileReadOnly) &&
      r[1].attributeValue.INT? && r[1].attributeValue.i as int % 0x1_0000_0000_0000_0000 == f.fileSizeBytes as int &&
      r[8].attributeValue.BYTES? && Decode(r[8].attributeValue.b) == Some(f.fileUuid)
  {
    var r := AsObjectAttrs(f);
    DecodeEncode(f.fileUuid);
    assert r[6].attributeValue == (if f.mediaTypeOverrideId.Some? then STRING(f.mediaTypeOverrideId.value) else NONE);
  }

  /** The attributes determine every field of the record except `file_deleted` and
      `file_vfs_path`, and do not depend on those two. */
  lemma {:induction false} AsObjectAttrsKeepsAllButTwo(f: FileRecord, g: FileRecord)
    ensures AsObjectAttrs(f) == AsObjectAttrs(g) <==>
            f.(fileDeleted := g.fileDeleted, fileVfsPath := g.fileVfsPath) == g
  {
    var a, b := AsObjectAttrs(f), AsObjectAttrs(g);
    if a == b {
      assert a[0] == b[0] && a[1] == b[1] && a[2] == b[2] && a[3] == b[3] && a[4] == b[4];
      assert a[5] == b[5] && a[6] == b[6] && a[7] == b[7];
      WrapToI64Injective(f.fileSizeBytes, g.fileSizeBytes);
    }
  }

  /** `ToSql for AttrValue`. */
  function AttrToSql(v: AttrValue): SqlValue
  {
    match v
    case NONE => Null
    case INT(i) => Integer(i)
    case FLOAT(f) => Real(f)
    case STRING(s) => Text(Encode(s))
    case BYTES(b) => Blob(b)
  }

  /** `FromSql for AttrValue`; text that is not UTF-8 makes the source panic. */
  function AttrFromSql(x: SqlValue): (r: Result<AttrValue>)
    ensures r.Err? <==> x.Text? && Decode(x.t).None?
  {
    match x
    case Null => Ok(NONE)
    case Integer(i) => Ok(INT(i))
    case Real(f) => Ok(FLOAT(f))
    case Text(t) =>
      (match Decode(t)
       case Some(s) => Ok(STRING(s))
       case None => Err("A text string was not utf-8"))
    case Blob(b) => Ok(BYTES(b))
  }

  /** Every attribute value survives a trip through an SQLite column. */
  lemma AttrSqlRoundTrip(v: AttrValue)
    ensures AttrFromSql(AttrToSql(v)) == Ok(v)
  {
    if v.STRING? {
      DecodeEncode(v.s);
    }
  }

  /** Every column value the decoder accepts is written back unchanged. */
  lemma SqlAttrRoundTrip(x: SqlValue)
    requires AttrFromSql(x).Ok?
    ensures AttrToSql(AttrFromSql(x).value) == x
  {
    if x.Text? {
      EncodeDecode(x.t);
    }
  }

  /** `{:?}` of a byte vector: `[1, 2, 3]`. */
  function BytesDebug(b: Bytes): string
  {
    "[" + ByteList(b) + "]"
  }

  function ByteList(b: Bytes): string
  {
    if |b| == 0 then ""
    else if |b| == 1 then NatToDecimal(b[0] as nat)
    else NatToDecimal(b[0] as nat) + ", " + ByteList(b[1..])
  }

  /** The later entries of the list, each a space and its decimal digits. */
  function Spaced(b: Bytes): (r: seq<string>)
    ensures |r| == |b| && forall i :: 0 <= i < |b| ==> r[i] == " " + NatToDecimal(b[i] as nat)
  {
    if |b| == 0 then [] else [" " + NatToDecimal(b[0] as nat)] + Spaced(b[1..])
  }

  lemma NoCommaInDecimal(n: nat)
    ensures ',' !in NatToDecimal(n)
  {
  }

  lemma {:induction false} SpacedJoin(b: Bytes)
    requires |b| >= 1
    ensures Join(Spaced(b), ',') == " " + ByteList(b)
  {
    if |b| >= 2 {
      var d := NatToDecimal(b[0] as nat);
      SpacedJoin(b[1..]);
      assert Spaced(b)[1..] == Spaced(b[1..]);
      assert (" " + d) + [','] + (" " + ByteList(b[1..])) == " " + (d + ", " + ByteList(b[1..]));
    }
  }

  lemma SpacedNoComma(b: Bytes)
    ensures forall i :: 0 <= i < |b| ==> ',' !in Spaced(b)[i]
  {
    forall i | 0 <= i < |b|
      ensures ',' !in Spaced(b)[i]
    {
      NoCommaInDecimal(b[i] as nat);
      assert Spaced(b)[i] == [' '] + NatToDecimal(b[i] as nat);
    }
  }

  lemma CommaSpace(d: string, t: string, j: string)
    requires j == " " + t
    ensures d + ", " + t == d + [','] + j
  {
  }

  lemma ByteListCons(b: Bytes)
    requires |b| >= 2
    ensures ByteList(b) == NatToDecimal(b[0] as nat) + [','] + Join(Spaced(b[1..]), ',')
  {
    var d, t := NatToDecimal(b[0] as nat), ByteList(b[1..]);
    assert ByteList(b) == d + ", " + t;
    SpacedJoin(b[1..]);
    CommaSpace(d, t, Join(Spaced(b[1..]), ','));
  }

  /** `{:?}` separates the bytes by ", ": split at ',', the list is the first byte's
      decimal digits, then a space and the digits of each later byte. */
  lemma ByteListPieces(b: Bytes)
    requires |b| >= 1
    ensures Split(ByteList(b), ',') == [NatToDecimal(b[0] as nat)] + Spaced(b[1..])
  {
    var d := NatToDecimal(b[0] as nat);
    NoCommaInDecimal(b[0] as nat);
    if |b| == 1 {
      SplitNoSep(d, ',');
    } else {
      var rest := Spaced(b[1..]);
      ByteListCons(b);
      SpacedNoComma(b[1..]);
      SplitJoin(rest, ',');
      SplitAfter(d, ',', Join(rest, ','));
    }
  }

  /** The printed list loses nothing: one entry per byte, and the digits of entry `i`
      (after the space that separates later entries) denote byte `i`. */
  lemma ByteListValues(b: Bytes)
    requires |b| >= 1
    ensures var ps := Split(ByteList(b), ',');
      |ps| == |b| &&
      forall i :: 0 <= i < |b| ==>
        (|ps[i]| >= 1 &&
         var digits := if i == 0 then ps[i] else ps[i][1..];
         (forall k :: 0 <= k < |digits| ==> IsDigit(digits[k])) && DecimalValue(digits) == b[i] as int)
  {
    ByteListPieces(b);
    var ps := Split(ByteList(b), ',');
    forall i | 0 <= i < |b|
      ensures |ps[i]| >= 1 && var digits := if i == 0 then ps[i] else ps[i][1..];
        (forall k :: 0 <= k < |digits| ==> IsDigit(digits[k])) && DecimalValue(digits) == b[i] as int
    {
      DecimalRoundTrip(b[i] as nat);
      if i > 0 {
        assert ps[i] == Spaced(b[1..])[i - 1];
        assert ps[i][1..] == NatToDecimal(b[i] as nat);
      }
    }
  }

  /** `Display for AttrValue`. How Rust prints an `f64` is not modelled: `floatText`
      stands for it. */
  function AttrDisplay(v: AttrValue, floatText: F64 -> string): (r: string)
    ensures v.NONE? ==> r == ""
    ensures v.STRING? ==> r == v.s
    ensures v.INT? ==> r == IntToDecimal(v.i as int)
    ensures v.BYTES? ==> |r| >= 2 && r[0] == '[' && r[|r| - 1] == ']'
    ensures v.BYTES? ==> r[1..|r| - 1] == ByteList(v.b)
  {
    match v
    case STRING(s) => s
    case INT(i) => IntToDecimal(i as int)
    case FLOAT(f) => floatText(f)
    case BYTES(b) => BytesDebug(b)
    case NONE => ""
  }
}
