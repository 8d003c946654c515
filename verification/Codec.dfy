/** Sizes and extents of one column value (src/types/codec.rs, src/types/arrow.rs). */
module Codec {
  import opened Base

  datatype PgTypeLen = Fixed(n: nat) | Varlena | CString

  datatype PgTypeId =
    | Bool | Bytea | Char | Name | Int8 | Int2 | Int4 | Text | Oid | Tid | Xid | Cid | Json | Xml
    | Point | Lseg | Path | Box | Polygon | Line | Cidr | Float4 | Float8 | Circle | Macaddr8
    | Money | Macaddr | Inet | Aclitem | Bpchar | Varchar | Date | Time | Timestamp | Timestamptz
    | Interval | Timetz | Bit | Varbit | Numeric | Uuid | Jsonb | Jsonpath | Xid8
    | BoolArray | ByteaArray | CharArray | NameArray | Int2Array | Int4Array | TextArray | TidArray
    | XidArray | CidArray | VarcharArray | Int8Array | Float4Array | Float8Array | OidArray
    | TimestampArray | DateArray | TimeArray | TimestamptzArray | NumericArray | UuidArray | JsonbArray

  /** Physical layout of a column: size class and alignment. */
  datatype Layout = Layout(len: PgTypeLen, align: nat) {
    ghost predicate Valid() {
      && align in {1, 2, 4, 8}
      && !len.CString?
      && (len.Fixed? ==> len.n > 0)
      && (len.Varlena? ==> align > 1)
    }
  }

  type ColLayout = l: Layout | l.Valid() witness Layout(Varlena, 4)

  function TypeLen(t: PgTypeId): PgTypeLen {
    match t
    case Bool | Char => Fixed(1)
    case Int2 => Fixed(2)
    case Int4 | Oid | Xid | Cid | Float4 | Date => Fixed(4)
    case Tid | Macaddr => Fixed(6)
    case Int8 | Float8 | Money | Time | Timestamp | Timestamptz | Xid8 | Macaddr8 => Fixed(8)
    case Timetz => Fixed(12)
    case Interval | Point | Uuid | Aclitem => Fixed(16)
    case Line | Circle => Fixed(24)
    case Lseg | Box => Fixed(32)
    case Name => Fixed(64)
    case _ => Varlena
  }

  function TypeAlign(t: PgTypeId): nat {
    match t
    case Bool | Char | Name | Uuid => 1
    case Int2 | Tid => 2
    case Int8 | Float8 | Money | Xid8 | Time | Timestamp | Timestamptz | Interval | Timetz
       | Point | Line | Lseg | Box | Circle | Path | Polygon | Aclitem => 8
    case _ => 4
  }

  /** What the walks rely on: no type is a C string, fixed widths are positive,
      alignments are powers of two up to 8, varlenas are at least 4-aligned. */
  function LayoutOf(t: PgTypeId): ColLayout { Layout(TypeLen(t), TypeAlign(t)) }

  /** `(off + a - 1) & !(a - 1)` for a power of two: the least multiple of `a` not below `off`. */
  function AlignUp(off: nat, a: nat): (r: nat)
    requires a in {1, 2, 4, 8}
    ensures off <= r < off + a
  {
    if a == 1 then off
    else if a == 2 then (off + 1) / 2 * 2
    else if a == 4 then (off + 3) / 4 * 4
    else (off + 7) / 8 * 8
  }

  /** With the bounds of AlignUp: it is the least multiple of `a` not below `off`. */
  lemma AlignUpIsMultiple(off: nat, a: nat)
    requires a in {1, 2, 4, 8}
    ensures AlignUp(off, a) % a == 0
    ensures AlignUp(off, a) == off <==> off % a == 0
  {
    if a == 8 {
      RoundUpTo8(off);
    } else if a == 4 {
      RoundUpTo4(off);
    } else if a == 2 {
      assert (off + 1) / 2 * 2 % 2 == 0;
    }
  }

  lemma RoundUpTo4(off: nat)
    ensures (off + 3) / 4 * 4 % 4 == 0 && ((off + 3) / 4 * 4 == off <==> off % 4 == 0)
  {
  }

  lemma RoundUpTo8(off: nat)
    ensures (off + 7) / 8 * 8 % 8 == 0 && ((off + 7) / 8 * 8 == off <==> off % 8 == 0)
  {
  }

  // ── One value ────────────────────────────────────────────────────────────

  /** Returns `(payload_start, payload_len)`. */
  function ReadVarlenaHeader(data: seq<byte>, off: nat): Result<(nat, nat)> {
    if off >= |data| then Err(DecodeError)
    else
      var first := data[off];
      if first == 0x01 then
        if off + 1 >= |data| then Err(DecodeError)
        else if data[off + 1] == 18 then Ok((off + 18, 0))
        else Err(DecodeError)
      else if first % 2 == 1 then
        Ok((off + 1, SatSub(first / 2, 1)))
      else if |data| < off + 4 then Err(DecodeError)
      else
        var word := U32(data, off);
        match word % 4
        case 0 => Ok((off + 4, SatSub(word / 4, 4)))
        case 2 => Ok((off + 4, SatSub(word / 4, 4)))
        case _ => Err(DecodeError)
  }

  /** Where a value's payload lies and how many bytes the column takes from `off`. */
  datatype Piece = Piece(start: nat, len: nat, consumed: nat)

  function FirstNul(data: seq<byte>, off: nat): (r: Option<nat>)
    requires off <= |data|
    ensures r.Some? ==> off + r.value < |data| && data[off + r.value] == 0
                        && 0 !in data[off..off + r.value]
    ensures r.None? ==> 0 !in data[off..]
    decreases |data| - off
  {
    if off == |data| then None
    else if data[off] == 0 then Some(0)
    else
      var r := FirstNul(data, off + 1);
      assert data[off..] == [data[off]] + data[off + 1..];
      match r
      case None => None
      case Some(k) =>
        assert data[off..off + 1 + k] == [data[off]] + data[off + 1..off + 1 + k];
        Some(k + 1)
  }

  function ExtractColumnBytes(len: PgTypeLen, data: seq<byte>, off: nat): Result<Piece> {
    match len
    case Fixed(n) =>
      if off + n <= |data| then Ok(Piece(off, n, n)) else Err(DecodeError)
    case Varlena =>
      var (start, plen) :- ReadVarlenaHeader(data, off);
      if start + plen <= |data| then Ok(Piece(start, plen, start + plen - off)) else Err(DecodeError)
    case CString =>
      if off > |data| then Err(DecodeError)
      else match FirstNul(data, off)
        case None => Err(DecodeError)
        case Some(k) => Ok(Piece(off, k, k + 1))
  }

  /** The fast path's `&data[off..off + n]`: panics instead of reporting an error. */
  function ExtractFixedBytes(data: seq<byte>, off: nat, n: nat): Result<Piece> {
    if off + n <= |data| then Ok(Piece(off, n, n)) else Err(Panic)
  }

  /** Rendering a payload of a given type may fail; nothing else about it is modelled. */
  type Leaf = (PgTypeId, seq<byte>) -> bool

  /** How it fails: a name without a NUL byte or with bytes that are not UTF-8 panics. */
  function Refusal(t: PgTypeId): PgError { if t.Name? then Panic else DecodeError }

  function DecodeDatum(leaf: Leaf, t: PgTypeId, data: seq<byte>, off: nat): Result<Piece> {
    DecodeAs((b: seq<byte>) => leaf(t, b), Refusal(t), TypeLen(t), data, off)
  }

  function DecodeAs(renders: seq<byte> -> bool, refusal: PgError, len: PgTypeLen, data: seq<byte>, off: nat): Result<Piece> {
    match len
    case Fixed(n) =>
      var bytes := Get(data, off, off + n);
      if bytes.None? then Err(DecodeError)
      else if renders(bytes.value) then Ok(Piece(off, n, n))
      else Err(refusal)
    case Varlena =>
      var (start, plen) :- ReadVarlenaHeader(data, off);
      var payload := Get(data, start, start + plen);
      if payload.None? then Err(DecodeError)
      else if renders(payload.value) then Ok(Piece(start, plen, start + plen - off))
      else Err(refusal)
    case CString =>
      if off > |data| then Err(Panic)
      else match FirstNul(data, off)
        case None => Err(DecodeError)
        case Some(k) => if renders(data[off..off + k]) then Ok(Piece(off, k, k + 1)) else Err(refusal)
  }

  function SkipDatum(len: PgTypeLen, data: seq<byte>, off: nat): Result<nat> {
    match len
    case Fixed(n) => Ok(n)
    case Varlena =>
      var (start, plen) :- ReadVarlenaHeader(data, off);
      Ok(start + plen - off)
    case CString =>
      if off > |data| then Err(DecodeError)
      else match FirstNul(data, off)
        case None => Err(DecodeError)
        case Some(k) => Ok(k + 1)
  }

  // ── What the size computations agree on ─────────────────────────────────

  /** Every byte pattern with enough room is accepted except an external pointer
      whose tag is not 18, so the "unknown tag" arm of the 4-byte form is dead code. The
      header gives the start and length of the payload, never below zero. */
  lemma VarlenaHeaderAccepts(data: seq<byte>, off: nat)
    ensures ReadVarlenaHeader(data, off).Ok? <==>
            && off < |data|
            && (data[off] == 1 ==> off + 1 < |data| && data[off + 1] == 18)
            && (data[off] % 2 == 0 ==> off + 4 <= |data|)
    ensures ReadVarlenaHeader(data, off).Ok? ==> ReadVarlenaHeader(data, off).value.0 > off
    ensures ReadVarlenaHeader(data, off).Err? ==> ReadVarlenaHeader(data, off).error == DecodeError
    ensures ReadVarlenaHeader(data, off).Ok? ==>
              ReadVarlenaHeader(data, off).value ==
              if data[off] == 1 then (off + 18, 0)
              else if data[off] % 2 == 1 then (off + 1, data[off] / 2 - 1)
              else (off + 4, if U32(data, off) < 16 then 0 else U32(data, off) / 4 - 4)
  {
    if off + 4 <= |data| && data[off] % 2 == 0 {
      assert U32(data, off) % 2 == 0;
    }
  }

  /** The size computations are one function: extraction succeeds exactly when the skip
      size stays inside the buffer; the sizes agree and are at least 1. */
  lemma SizesAgree(l: ColLayout, data: seq<byte>, off: nat)
    ensures var e := ExtractColumnBytes(l.len, data, off);
            var s := SkipDatum(l.len, data, off);
            && (e.Ok? <==> s.Ok? && off + s.value <= |data|)
            && (e.Ok? ==> && e.value.consumed == s.value >= 1
                          && off <= e.value.start
                          && e.value.start + e.value.len == off + e.value.consumed <= |data|)
            && (s.Ok? ==> s.value >= 1) && (e.Err? ==> e.error == DecodeError)
            && (l.len.Fixed? ==> s == Ok(l.len.n)) && (l.len.Varlena? ==> (s.Ok? <==> ReadVarlenaHeader(data, off).Ok?))
  {
    VarlenaHeaderAccepts(data, off);
  }

  lemma DecodeAsAgrees(renders: seq<byte> -> bool, refusal: PgError, l: ColLayout, data: seq<byte>, off: nat)
    ensures var d := DecodeAs(renders, refusal, l.len, data, off);
            var e := ExtractColumnBytes(l.len, data, off);
            && (e.Ok? ==> e.value.start + e.value.len <= |data|)
            && if e.Err? then d == Err(DecodeError)
               else if renders(data[e.value.start..e.value.start + e.value.len]) then d == e
               else d == Err(refusal)
  {
    VarlenaHeaderAccepts(data, off);
  }

  /** Decoding succeeds exactly when extraction does and the payload renders, with the
      same extent and size; a payload that does not render fails as its type does. */
  lemma DecodeAgrees(leaf: Leaf, t: PgTypeId, data: seq<byte>, off: nat)
    ensures var d := DecodeDatum(leaf, t, data, off);
            var e := ExtractColumnBytes(LayoutOf(t).len, data, off);
            && (e.Ok? ==> e.value.start + e.value.len <= |data|)
            && if e.Err? then d == Err(DecodeError)
               else if leaf(t, data[e.value.start..e.value.start + e.value.len]) then d == e
               else d == Err(if t.Name? then Panic else DecodeError)
  {
    DecodeAsAgrees((b: seq<byte>) => leaf(t, b), Refusal(t), LayoutOf(t), data, off);
  }
}
