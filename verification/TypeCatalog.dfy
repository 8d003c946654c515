/** The crate's tables of types (src/types/codec.rs:186-335, 757-829) against the server's
    catalogue: typlen and typalign of pg_type. */
module TypeCatalog {
  import opened Base
  import opened Codec
  import opened ArrowTypes

  /** The element type of an array type. */
  function ElementOf(t: PgTypeId): Option<PgTypeId> {
    match t
    case BoolArray => Some(Bool)
    case ByteaArray => Some(Bytea)
    case CharArray => Some(Char)
    case NameArray => Some(Name)
    case Int2Array => Some(Int2)
    case Int4Array => Some(Int4)
    case TextArray => Some(Text)
    case TidArray => Some(Tid)
    case XidArray => Some(Xid)
    case CidArray => Some(Cid)
    case VarcharArray => Some(Varchar)
    case Int8Array => Some(Int8)
    case Float4Array => Some(Float4)
    case Float8Array => Some(Float8)
    case OidArray => Some(Oid)
    case TimestampArray => Some(Timestamp)
    case DateArray => Some(Date)
    case TimeArray => Some(Time)
    case TimestamptzArray => Some(Timestamptz)
    case NumericArray => Some(Numeric)
    case UuidArray => Some(Uuid)
    case JsonbArray => Some(Jsonb)
    case _ => None
  }

  /** typlen of the types, -1 for variable length ... */
  function CatalogueLength(t: PgTypeId): int {
    match t
    case Bool => 1
    case Char => 1
    case Name => 64
    case Int8 => 8
    case Int2 => 2
    case Int4 => 4
    case Oid => 4
    case Tid => 6
    case Xid => 4
    case Cid => 4
    case Point => 16
    case Lseg => 32
    case Box => 32
    case Line => 24
    case Float4 => 4
    case Float8 => 8
    case Circle => 24
    case Macaddr8 => 8
    case Money => 8
    case Macaddr => 6
    case Aclitem => 16
    case Date => 4
    case Time => 8
    case Timestamp => 8
    case Timestamptz => 8
    case Interval => 16
    case Timetz => 12
    case Uuid => 16
    case Xid8 => 8
    case _ => -1
  }

  /** ... and typalign, in bytes, of those that are not arrays. */
  function CatalogueAlign(t: PgTypeId): nat {
    match t
    case Bool => 1
    case Bytea => 4
    case Char => 1
    case Name => 1
    case Int8 => 8
    case Int2 => 2
    case Int4 => 4
    case Text => 4
    case Oid => 4
    case Tid => 2
    case Xid => 4
    case Cid => 4
    case Json => 4
    case Xml => 4
    case Point => 8
    case Lseg => 8
    case Path => 8
    case Box => 8
    case Polygon => 8
    case Line => 8
    case Cidr => 4
    case Float4 => 4
    case Float8 => 8
    case Circle => 8
    case Macaddr8 => 4
    case Money => 8
    case Macaddr => 4
    case Inet => 4
    case Aclitem => 8
    case Bpchar => 4
    case Varchar => 4
    case Date => 4
    case Time => 8
    case Timestamp => 8
    case Timestamptz => 8
    case Interval => 8
    case Timetz => 8
    case Bit => 4
    case Varbit => 4
    case Numeric => 4
    case Uuid => 1
    case Jsonb => 4
    case Jsonpath => 4
    case Xid8 => 8
    case _ => 4
  }

  /** Every type is as long as the catalogue has it ... */
  lemma LengthIsCatalogues(t: PgTypeId)
    ensures TypeLen(t) == if CatalogueLength(t) == -1 then Varlena else Fixed(CatalogueLength(t))
  {
  }

  /** ... and aligned as the catalogue has it, if it is not an array. The server aligns an
      array as its elements, and at least to 4 bytes; the crate always to 4. */
  lemma AlignmentIsCatalogues(t: PgTypeId)
    ensures TypeAlign(t) == if ElementOf(t).Some? then 4 else CatalogueAlign(t)
  {
  }

  function ArrayAlign(element: PgTypeId): nat { Max(4, CatalogueAlign(element)) }

  /** So exactly the arrays of elements aligned to 8 bytes are misplaced. */
  lemma ArrayIsMisalignedIff(t: PgTypeId)
    requires ElementOf(t).Some?
    ensures TypeAlign(t) != ArrayAlign(ElementOf(t).value) <==>
            t.Int8Array? || t.Float8Array? || t.TimeArray? || t.TimestampArray? || t.TimestamptzArray?
  {
  }

  /** Arrays are declared to Arrow as lists of what their elements are declared as ... */
  lemma ArraysAreLists(t: PgTypeId)
    ensures ElementOf(t).Some? ==> TypeOf(t) == List(TypeOf(ElementOf(t).value))
  {
  }

  /** ... and no other type is. */
  lemma OnlyArraysAreLists(t: PgTypeId)
    ensures IsArray(t) <==> ElementOf(t).Some?
  {
  }

  predicate IsFixed(t: PgTypeId, bits: nat) { TypeLen(t).Fixed? && 8 * TypeLen(t).n == bits }

  /** Integers are as wide as they are stored, ... */
  lemma IntegersAreAsWide(t: PgTypeId)
    ensures TypeOf(t).Signed? ==> IsFixed(t, TypeOf(t).bits)
  {
  }

  lemma UnsignedAreAsWide(t: PgTypeId)
    ensures TypeOf(t).Unsigned? ==> IsFixed(t, TypeOf(t).bits)
  {
  }

  lemma FloatsAreAsWide(t: PgTypeId)
    ensures TypeOf(t).Floating? ==> IsFixed(t, TypeOf(t).bits)
  {
  }

  /** ... and so are fixed-size binaries. */
  lemma BinariesAreAsWide(t: PgTypeId)
    ensures TypeOf(t).FixedBytes? ==> IsFixed(t, 8 * TypeOf(t).n)
  {
  }

  /** Which types are declared as integers, ... */
  lemma DeclaredIntegers(t: PgTypeId)
    ensures TypeOf(t).Signed? <==> t.Int2? || t.Int4? || t.Int8? || t.Money?
    ensures TypeOf(t).Unsigned? <==> t.Char? || t.Oid? || t.Xid? || t.Cid? || t.Xid8?
  {
  }

  lemma DeclaredTruthValues(t: PgTypeId)
    ensures TypeOf(t).Boolean? <==> t.Bool?
  {
  }

  /** ... which as other numbers, ... */
  lemma DeclaredNumbers(t: PgTypeId)
    ensures TypeOf(t).Floating? <==> t.Float4? || t.Float8?
    ensures TypeOf(t).Decimals? <==> t.Numeric?
  {
  }

  /** ... which as days and times of day, ... */
  lemma DeclaredDays(t: PgTypeId)
    ensures TypeOf(t).DayDate? <==> t.Date?
    ensures TypeOf(t).TimeOfDay? <==> t.Time? || t.Timetz?
  {
  }

  lemma DeclaredIntervals(t: PgTypeId)
    ensures TypeOf(t).MonthDayNano? <==> t.Interval?
  {
  }

  /** ... which as instants, ... */
  lemma DeclaredInstants(t: PgTypeId)
    ensures TypeOf(t).Instant? <==> t.Timestamp? || t.Timestamptz?
    ensures TypeOf(t).Instant? ==> (TypeOf(t).utc <==> t.Timestamptz?)
  {
  }

  /** ... and which as text and bytes of a fixed number: with the arrays, every other type is
      plain bytes. */
  lemma DeclaredTexts(t: PgTypeId)
    ensures TypeOf(t).Utf8? <==> t.Name? || t.Text? || t.Varchar? || t.Bpchar? || t.Json? || t.Xml?
    ensures TypeOf(t).FixedBytes? <==> t.Uuid? || t.Macaddr? || t.Macaddr8? || t.Point? || t.Line? || t.Circle?
                                       || t.Lseg? || t.Box?
  {
  }
}
