/** Arrow column builders fed with raw PostgreSQL bytes (src/types/arrow.rs). */
module Builder {
  import opened Base
  import opened Codec
  import opened Numeric

  datatype PgColumn = PgColumn(typeId: PgTypeId, typmod: int, nullable: bool)

  datatype DecimalType = Decimal128(precision: nat, scale: int) | Decimal256(precision: nat, scale: int)

  /** `as u8` and `as i8` truncate precision and scale. */
  function NumericTypmodToArrowType(typmod: int): DecimalType {
    if typmod > 0 then
      var tm := (typmod - 4) % 0x1_0000_0000;
      var precision := tm / 0x1_0000 % 0x100;
      var scale := AsI8(tm % 0x1_0000);
      if precision <= 38 then Decimal128(precision, scale) else Decimal256(precision, scale)
    else Decimal256(38, 0)
  }

  /** The type modifier of NUMERIC(p, s): ((p << 16) | s) + 4. */
  function NumericTypmod(p: nat, s: nat): nat { p * 0x1_0000 + s + 4 }

  /** NUMERIC(p, s) gets Decimal128(p, s) up to 38 digits and Decimal256(p, s) beyond,
      exactly when p fits in a u8 and s in an i8. */
  lemma TypmodMapsAsDocumented(p: nat, s: nat)
    requires 1 <= p < 0x8000 && s < 0x1_0000
    ensures var documented := if p <= 38 then Decimal128(p, s) else Decimal256(p, s);
            NumericTypmodToArrowType(NumericTypmod(p, s)) == documented <==> p < 256 && s < 128
  {
    var tm := p * 0x1_0000 + s;
    assert tm / 0x1_0000 == p && tm % 0x1_0000 == s;
  }

  /** An Arrow cell: NULL, a scaled integer, days or microseconds since 1970, or the bytes a
      leaf renderer is given. */
  datatype Entry = NullEntry | Decimal(value: int) | SinceEpoch(units: int) | Raw(bytes: seq<byte>)

  // 1970-01-01 to 2000-01-01
  const EPOCH_DAYS := 10_957
  const EPOCH_MICROS := 946_684_800_000_000

  /** `target_scale - actual_scale` in i8, then one multiplication or division in i128. */
  function Rescale128(v: int, actual: int, target: int): Result<int> {
    var diff := target - actual;
    if diff < -MAX_POW10 || diff > MAX_POW10 then Err(Panic)
    else if diff > 0 then Ok(Saturate(v * Pow10(diff)))
    else if diff < 0 then Ok(TruncDiv(v, Pow10(-diff)))
    else Ok(v)
  }

  function Rescale256(v: int, actual: int, target: int): Result<int> {
    var diff := target - actual;
    if diff < -MAX_POW10 || diff > MAX_POW10 then Err(Panic)
    else if diff > 0 then Ok(Wrap256(v * Pow10(diff)))
    else if diff < 0 then Ok(TruncDiv(v, Pow10(-diff)))
    else Ok(v)
  }

  /** The shift from PostgreSQL's epoch to 1970, in i32 or i64. */
  function ShiftEpoch(pg: int, shift: nat, max: nat): Result<Entry> {
    if pg + shift <= max then Ok(SinceEpoch(pg + shift)) else Err(Panic)
  }

  /** The one entry appended for a payload: NaN becomes NULL, a NUMERIC is brought to the
      column's scale, dates and timestamps to the Unix epoch, and anything else is handed to
      its leaf renderer. */
  function EntryFor(col: PgColumn, bytes: seq<byte>): Result<Entry> {
    match col.typeId
    case Date => if |bytes| < 4 then Err(Panic) else ShiftEpoch(I32(bytes, 0), EPOCH_DAYS, I32_MAX)
    case Timestamp | Timestamptz =>
      if |bytes| < 8 then Err(Panic) else ShiftEpoch(I64(bytes, 0), EPOCH_MICROS, I64_MAX)
    case Numeric => NumericEntry(NumericTypmodToArrowType(col.typmod), bytes)
    case _ => Ok(Raw(bytes))
  }

  function NumericEntry(arrow: DecimalType, bytes: seq<byte>): Result<Entry> {
    match if arrow.Decimal128? then DecodedI128(bytes) else DecodedI256(bytes)
    case NotFinite => Ok(NullEntry)
    case Overflow => Err(Panic)
    case Number(v, actual) =>
      var w :- if arrow.Decimal128? then Rescale128(v, actual, arrow.scale) else Rescale256(v, actual, arrow.scale);
      Ok(Decimal(w))
  }

  /** The last day and the last microsecond that can be appended. */
  const LAST_DAY := 2_147_472_690
  const LAST_MICRO := 9_222_425_352_054_775_807

  lemma ShiftedWord(col: PgColumn, bytes: seq<byte>)
    ensures col.typeId.Date? && |bytes| == 4 ==>
              EntryFor(col, bytes) == if I32(bytes, 0) > LAST_DAY then Err(Panic)
                                      else Ok(SinceEpoch(I32(bytes, 0) + EPOCH_DAYS))
    ensures (col.typeId.Timestamp? || col.typeId.Timestamptz?) && |bytes| == 8 ==>
              EntryFor(col, bytes) == if I64(bytes, 0) > LAST_MICRO then Err(Panic)
                                      else Ok(SinceEpoch(I64(bytes, 0) + EPOCH_MICROS))
  {
  }

  /** A column storing the number x of days or microseconds since 2000 gets the number since
      1970, exactly up to a last day or microsecond. */
  lemma EpochShiftIff(col: PgColumn, x: int)
    ensures col.typeId.Date? && -0x8000_0000 <= x < 0x8000_0000 ==>
              EntryFor(col, SignedLE32(x)) == if x > 2_147_472_690 then Err(Panic) else Ok(SinceEpoch(x + 10_957))
    ensures (col.typeId.Timestamp? || col.typeId.Timestamptz?)
            && -0x8000_0000_0000_0000 <= x < 0x8000_0000_0000_0000 ==>
              EntryFor(col, SignedLE64(x)) == if x > 9_222_425_352_054_775_807 then Err(Panic)
                                              else Ok(SinceEpoch(x + 946_684_800_000_000))
  {
  }

  /** A payload too short for its number panics. */
  lemma ShortDatePanics(col: PgColumn, bytes: seq<byte>)
    ensures col.typeId.Date? && |bytes| < 4 ==> EntryFor(col, bytes) == Err(Panic)
    ensures (col.typeId.Timestamp? || col.typeId.Timestamptz?) && |bytes| < 8 ==> EntryFor(col, bytes) == Err(Panic)
  {
  }

  /** PostgreSQL stores 'infinity' as the largest integer, which panics ... */
  lemma InfinityPanics(col: PgColumn, bytes: seq<byte>)
    requires IsExtreme(bytes, 0xFF, 0x7F)
    ensures |bytes| == 4 && col.typeId.Date? ==> EntryFor(col, bytes) == Err(Panic)
    ensures |bytes| == 8 && (col.typeId.Timestamp? || col.typeId.Timestamptz?) ==> EntryFor(col, bytes) == Err(Panic)
  {
    LargestWord(bytes);
    ShiftedWord(col, bytes);
  }

  /** ... and '-infinity' as the smallest, which becomes an ordinary day or instant. */
  lemma MinusInfinityIsOrdinary(col: PgColumn, bytes: seq<byte>)
    requires IsExtreme(bytes, 0x00, 0x80)
    ensures |bytes| == 4 && col.typeId.Date? ==> EntryFor(col, bytes) == Ok(SinceEpoch(10_957 - 0x8000_0000))
    ensures |bytes| == 8 && (col.typeId.Timestamp? || col.typeId.Timestamptz?) ==>
              EntryFor(col, bytes) == Ok(SinceEpoch(946_684_800_000_000 - 0x8000_0000_0000_0000))
  {
    SmallestWord(bytes);
    ShiftedWord(col, bytes);
  }

  /** Four or eight bytes: `low` but for the last, which is `high`. */
  predicate IsExtreme(bytes: seq<byte>, low: byte, high: byte) {
    && (|bytes| == 4 || |bytes| == 8) && bytes[|bytes| - 1] == high
    && forall i :: 0 <= i < |bytes| - 1 ==> bytes[i] == low
  }

  lemma LargestWord(bytes: seq<byte>)
    requires IsExtreme(bytes, 0xFF, 0x7F)
    ensures |bytes| == 4 ==> I32(bytes, 0) == 0x7FFF_FFFF
    ensures |bytes| == 8 ==> I64(bytes, 0) == 0x7FFF_FFFF_FFFF_FFFF
  {
  }

  lemma SmallestWord(bytes: seq<byte>)
    requires IsExtreme(bytes, 0x00, 0x80)
    ensures |bytes| == 4 ==> I32(bytes, 0) == -0x8000_0000
    ensures |bytes| == 8 ==> I64(bytes, 0) == -0x8000_0000_0000_0000
  {
  }

  /** The types whose payloads are handed to a leaf renderer. */
  predicate IsLeaf(t: PgTypeId) { !t.Numeric? && !t.Date? && !t.Timestamp? && !t.Timestamptz? }

  class ColumnBuilder {
    const col: PgColumn
    var entries: seq<Entry>

    constructor (col: PgColumn)
      ensures this.col == col && entries == []
    {
      this.col := col;
      entries := [];
    }

    method AppendNull()
      modifies this
      ensures entries == old(entries) + [NullEntry]
    {
      entries := entries + [NullEntry];
    }

    method AppendBytes(bytes: seq<byte>) returns (e: Option<PgError>)
      modifies this
      ensures IsLeaf(col.typeId) ==> e == None && entries == old(entries) + [Raw(bytes)]
      ensures match EntryFor(col, bytes)
              case Ok(entry) => e == None && entries == old(entries) + [entry]
              case Err(error) => e == Some(error) && entries == old(entries)
    {
      match col.typeId {
        case Date =>
          if |bytes| < 4 {
            return Some(Panic);
          }
          e := AppendShifted(I32(bytes, 0), EPOCH_DAYS, I32_MAX);
        case Timestamp | Timestamptz =>
          if |bytes| < 8 {
            return Some(Panic);
          }
          e := AppendShifted(I64(bytes, 0), EPOCH_MICROS, I64_MAX);
        case Numeric => e := AppendNumeric(bytes);
        case _ =>
          entries := entries + [Raw(bytes)];
          return None;
      }
    }

    method AppendShifted(pg: int, shift: nat, max: nat) returns (e: Option<PgError>)
      modifies this
      ensures match ShiftEpoch(pg, shift, max)
              case Ok(entry) => e == None && entries == old(entries) + [entry]
              case Err(error) => e == Some(error) && entries == old(entries)
    {
      if pg + shift > max {
        return Some(Panic);
      }
      entries := entries + [SinceEpoch(pg + shift)];
      return None;
    }

    method AppendNumeric(bytes: seq<byte>) returns (e: Option<PgError>)
      modifies this
      ensures match NumericEntry(NumericTypmodToArrowType(col.typmod), bytes)
              case Ok(entry) => e == None && entries == old(entries) + [entry]
              case Err(error) => e == Some(error) && entries == old(entries)
    {
      var arrow := NumericTypmodToArrowType(col.typmod);
      var decoded;
      if arrow.Decimal128? {
        decoded := DecodeI128(bytes);
      } else {
        decoded := DecodeI256(bytes);
      }
      match decoded {
        case NotFinite =>
          entries := entries + [NullEntry];
        case Overflow =>
          return Some(Panic);
        case Number(v, actual) =>
          var w := if arrow.Decimal128? then Rescale128(v, actual, arrow.scale) else Rescale256(v, actual, arrow.scale);
          if w.Err? {
            return Some(w.error);
          }
          entries := entries + [Decimal(w.value)];
      }
      return None;
    }
  }
}
