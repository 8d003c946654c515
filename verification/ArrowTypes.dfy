/** The Arrow type a column declares and the one its builder produces
    (src/types/codec.rs:757-829, src/types/column.rs, src/types/arrow.rs:226-301). */
module ArrowTypes {
  import opened Codec
  import opened Builder

  datatype ArrowType =
    | Boolean | Signed(bits: nat) | Unsigned(bits: nat) | Floating(bits: nat)
    | DayDate | TimeOfDay | Instant(utc: bool) | MonthDayNano
    | Utf8 | Bytes | FixedBytes(n: nat) | Decimals(d: DecimalType) | List(item: ArrowType)

  /** `arrow_type` */
  function TypeOf(t: PgTypeId): ArrowType {
    match t
    case Bool => Boolean
    case Int2 => Signed(16)
    case Int4 => Signed(32)
    case Int8 | Money => Signed(64)
    case Char => Unsigned(8)
    case Oid | Xid | Cid => Unsigned(32)
    case Xid8 => Unsigned(64)
    case Float4 => Floating(32)
    case Float8 => Floating(64)
    case Date => DayDate
    case Time | Timetz => TimeOfDay
    case Timestamp => Instant(false)
    case Timestamptz => Instant(true)
    case Interval => MonthDayNano
    case Name | Text | Varchar | Bpchar | Json | Xml => Utf8
    case Numeric => Decimals(Decimal256(38, 0))
    case Uuid | Point => FixedBytes(16)
    case Macaddr => FixedBytes(6)
    case Macaddr8 => FixedBytes(8)
    case Line | Circle => FixedBytes(24)
    case Lseg | Box => FixedBytes(32)
    case BoolArray => List(Boolean)
    case CharArray => List(Unsigned(8))
    case Int2Array => List(Signed(16))
    case Int4Array => List(Signed(32))
    case Int8Array => List(Signed(64))
    case Float4Array => List(Floating(32))
    case Float8Array => List(Floating(64))
    case NameArray | TextArray | VarcharArray => List(Utf8)
    case OidArray | XidArray | CidArray => List(Unsigned(32))
    case TimestampArray => List(Instant(false))
    case TimestamptzArray => List(Instant(true))
    case DateArray => List(DayDate)
    case TimeArray => List(TimeOfDay)
    case NumericArray => List(Decimals(Decimal256(38, 0)))
    case UuidArray => List(FixedBytes(16))
    case ByteaArray | TidArray | JsonbArray => List(Bytes)
    case _ => Bytes
  }

  /** `to_arrow_field` */
  function FieldType(col: PgColumn): ArrowType {
    if col.typeId.Numeric? then Decimals(NumericTypmodToArrowType(col.typmod)) else TypeOf(col.typeId)
  }

  /** What `ColumnBuilder::for_column(col).finish()` is an array of. */
  function ArrayType(col: PgColumn): ArrowType {
    match col.typeId
    case Bool => Boolean
    case Int2 => Signed(16)
    case Int4 => Signed(32)
    case Int8 => Signed(64)
    case Float4 => Floating(32)
    case Float8 => Floating(64)
    case Char => Unsigned(8)
    case Oid | Xid | Cid => Unsigned(32)
    case Xid8 => Unsigned(64)
    case Date => DayDate
    case Money => Signed(64)
    case Time | Timetz => TimeOfDay
    case Timestamp => Instant(false)
    case Timestamptz => Instant(true)
    case Name | Text | Varchar | Bpchar | Json | Xml => Utf8
    case Numeric => Decimals(NumericTypmodToArrowType(col.typmod))
    case Uuid | Macaddr | Macaddr8 | Point | Line | Circle | Lseg | Box =>
      (match TypeLen(col.typeId) case Fixed(n) => FixedBytes(n) case _ => FixedBytes(16))
    case _ => Bytes
  }

  predicate IsArray(t: PgTypeId) { TypeOf(t).List? }

  /** Every column but an interval or an array is built as the type it declares. */
  lemma BuiltAsDeclaredIff(col: PgColumn)
    ensures FieldType(col) == ArrayType(col) <==> !col.typeId.Interval? && !IsArray(col.typeId)
  {
  }

  /** A NUMERIC(p, s) column is declared, and built, as a decimal of that precision and scale,
      in 128 bits up to 38 digits; one without them as Decimal256(38, 0). */
  lemma NumericIsDeclared(p: nat, s: nat, nullable: bool)
    requires 1 <= p < 256 && s < 128
    ensures var col := PgColumn(PgTypeId.Numeric, 0x1_0000 * p + s + 4, nullable);
            FieldType(col) == ArrayType(col) == Decimals(if p <= 38 then Decimal128(p, s) else Decimal256(p, s))
    ensures FieldType(PgColumn(PgTypeId.Numeric, -1, nullable)) == Decimals(Decimal256(38, 0))
  {
    TypmodMapsAsDocumented(p, s);
  }

  /** What RecordBatch's constructor asks of one column: the declared type, and no NULL
      unless the column is nullable. */
  predicate Takes(col: PgColumn, entries: seq<Entry>) {
    FieldType(col) == ArrayType(col) && (col.nullable || NullEntry !in entries)
  }
}
