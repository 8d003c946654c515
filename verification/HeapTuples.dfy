/** Heap tuple headers and null bitmaps (src/heap/tuple.rs). */
module HeapTuples {
  import opened Base

  const SIZEOF_HEAP_TUPLE_HEADER := 23
  const HEAP_HASNULL := 0x0001
  const HEAP_XMAX_INVALID := 0x0800
  const NATTS_MODULUS := 0x0800  // t_infomask2 & 0x07FF

  datatype TupleHeader = TupleHeader(
    xmin: nat, xmax: nat, field3: nat,
    ctidHi: nat, ctidLo: nat, ctidPos: nat,
    infomask2: nat, infomask: nat, hoff: nat)

  datatype HeapTuple = HeapTuple(header: TupleHeader, nullBitmap: seq<byte>, data: seq<byte>)

  function DivCeil8(n: nat): nat { (n + 7) / 8 }

  function ParseHeader(raw: seq<byte>): TupleHeader
    requires |raw| >= SIZEOF_HEAP_TUPLE_HEADER
  {
    TupleHeader(U32(raw, 0), U32(raw, 4), U32(raw, 8),
                U16(raw, 12), U16(raw, 14), U16(raw, 16),
                U16(raw, 18), U16(raw, 20), raw[22])
  }

  function ParseAndBuild(raw: seq<byte>): Result<HeapTuple> {
    if |raw| < SIZEOF_HEAP_TUPLE_HEADER then Err(TupleBufferTooShort)
    else
      var h := ParseHeader(raw);
      if h.hoff < SIZEOF_HEAP_TUPLE_HEADER || h.hoff > |raw| then Err(InvalidTupleHoff)
      else if HasBit(h.infomask, HEAP_HASNULL) then
        var bitmapEnd := SIZEOF_HEAP_TUPLE_HEADER + DivCeil8(h.infomask2 % NATTS_MODULUS);
        if bitmapEnd > h.hoff then Err(NullBitmapOverflow)
        else Ok(HeapTuple(h, raw[SIZEOF_HEAP_TUPLE_HEADER..bitmapEnd], raw[h.hoff..]))
      else Ok(HeapTuple(h, [], raw[h.hoff..]))
  }

  /** Which byte strings are tuples, how others are refused, and what is cut out of one. */
  lemma TupleParsesIff(raw: seq<byte>)
    ensures var r := ParseAndBuild(raw);
            if |raw| < 23 then r == Err(TupleBufferTooShort)
            else if raw[22] < 23 || raw[22] > |raw| then r == Err(InvalidTupleHoff)
            else
              var end := if raw[20] % 2 == 1 then 23 + (U16(raw, 18) % 0x0800 + 7) / 8 else 23;
              if end > raw[22] then r == Err(NullBitmapOverflow)
              else r.Ok? && r.value.nullBitmap == raw[23..end] && r.value.data == raw[raw[22]..]
  {
    if |raw| >= 23 {
      assert U16(raw, 20) % 2 == raw[20] % 2;
      assert raw[23..23] == [];
    }
  }

  function Pow2(k: nat): (r: nat)
    requires k < 8
    ensures r > 0
  {
    [1, 2, 4, 8, 16, 32, 64, 128][k]
  }

  /** Bit `col` of the bitmap is present and clear. */
  predicate IsNull(nullBitmap: seq<byte>, col: nat) {
    col / 8 < |nullBitmap| && !HasBit(nullBitmap[col / 8], Pow2(col % 8))
  }

  /** Columns beyond the bitmap, and all columns without one, are not NULL. */
  lemma BeyondBitmapIsPresent(nullBitmap: seq<byte>, col: nat)
    requires col >= 8 * |nullBitmap|
    ensures !IsNull(nullBitmap, col)
  {
  }

  // ── Block numbers ────────────────────────────────────────────────────────

  datatype BlockId = BlockId(hi: nat, lo: nat) {
    ghost predicate Valid() { hi < 0x1_0000 && lo < 0x1_0000 }

    function BlockNumber(): nat { hi * 0x1_0000 + lo }
  }

  /** `From<u32> for BlockIdData`. */
  function ToBlockId(n: nat): (b: BlockId)
    requires n < 0x1_0000_0000
    ensures b.Valid() && b.BlockNumber() == n
  {
    BlockId(n / 0x1_0000, n % 0x1_0000)
  }

  /** Splitting and joining block numbers are inverse. */
  lemma BlockIdsRoundTrip(b: BlockId)
    requires b.Valid()
    ensures b.BlockNumber() < 0x1_0000_0000 && ToBlockId(b.BlockNumber()) == b
    ensures b.BlockNumber() / 0x1_0000 == b.hi
  {
  }
}
