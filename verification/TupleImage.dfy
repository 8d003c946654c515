/** A whole stored tuple as bytes: header, null bitmap, padding and data area. */
module TupleImage {
  import opened Base
  import opened Codec
  import opened HeapTuples
  import opened Deform
  import opened TupleWalk
  import opened HeapLayout

  // ── Null bitmap ──────────────────────────────────────────────────────────

  /** Bit `j` of byte `k`: column `8k + j` exists and is not NULL. */
  function PresentBit(row: seq<Value>, k: nat, j: nat): nat {
    if 8 * k + j < |row| && !row[8 * k + j].VNull? then 1 else 0
  }

  /** Bits `j..8`, bit `j` in the lowest place. */
  function PackFrom(row: seq<Value>, k: nat, j: nat): (w: nat)
    requires j <= 8
    ensures w < [256, 128, 64, 32, 16, 8, 4, 2, 1][j]
    decreases 8 - j
  {
    if j == 8 then 0 else PresentBit(row, k, j) + 2 * PackFrom(row, k, j + 1)
  }

  function BitmapByte(row: seq<Value>, k: nat): byte { PackFrom(row, k, 0) }

  function EncodeBitmap(row: seq<Value>): (b: seq<byte>)
    ensures |b| == (|row| + 7) / 8
  {
    seq((|row| + 7) / 8, k requires 0 <= k => BitmapByte(row, k))
  }

  /** Shifting `b` right `j` places leaves bits `j..8`. */
  lemma {:induction false} ShiftLeavesHighBits(row: seq<Value>, k: nat, j: nat)
    requires j < 8
    ensures BitmapByte(row, k) / Pow2(j) == PackFrom(row, k, j)
  {
    if j > 0 {
      ShiftLeavesHighBits(row, k, j - 1);
      var w: int := BitmapByte(row, k);
      DivTwice(w, j);
      assert PackFrom(row, k, j - 1) == PresentBit(row, k, j - 1) + 2 * PackFrom(row, k, j);
    }
  }

  lemma DivTwice(w: nat, j: nat)
    requires 0 < j < 8
    ensures w / Pow2(j) == w / Pow2(j - 1) / 2
  {
    match j
    case 1 =>
    case 2 =>
    case 3 =>
    case 4 =>
    case 5 =>
    case 6 =>
    case 7 =>
  }

  lemma BitReadsBack(row: seq<Value>, k: nat, j: nat)
    requires j < 8
    ensures HasBit(BitmapByte(row, k), Pow2(j)) <==> PresentBit(row, k, j) == 1
  {
    ShiftLeavesHighBits(row, k, j);
    LowBit(PresentBit(row, k, j), PackFrom(row, k, j + 1));
  }

  lemma LowBit(bit: nat, rest: nat)
    requires bit < 2
    ensures (bit + 2 * rest) % 2 == bit
  {
  }

  lemma BitmapReadsBack(row: seq<Value>)
    ensures NullsMatch(EncodeBitmap(row), row)
  {
    forall i | 0 <= i < |row| ensures IsNull(EncodeBitmap(row), i) <==> row[i].VNull? {
      assert 8 * (i / 8) + i % 8 == i;
      BitReadsBack(row, i / 8, i % 8);
    }
  }

  // ── The tuple ────────────────────────────────────────────────────────────

  predicate HasNulls(row: seq<Value>) { exists i :: 0 <= i < |row| && row[i].VNull? }

  function BitmapOf(row: seq<Value>): seq<byte> { if HasNulls(row) then EncodeBitmap(row) else [] }

  /** Transaction ids, tid and flag bits of a tuple; the rest of its header follows from the row. */
  datatype TupleMeta = TupleMeta(xmin: nat, xmax: nat, field3: nat, ctidHi: nat, ctidLo: nat, ctidPos: nat,
                                 attrFlags: nat, flags: nat)
  {
    ghost predicate Valid() {
      && xmin < 0x1_0000_0000 && xmax < 0x1_0000_0000 && field3 < 0x1_0000_0000
      && ctidHi < 0x1_0000 && ctidLo < 0x1_0000 && ctidPos < 0x1_0000
      && attrFlags < 0x20 && flags < 0x8000
    }
  }

  /** PostgreSQL's limit on the columns of a heap tuple. */
  const MAX_HEAP_ATTRIBUTES := 1600

  /** The header a tuple with this row has: HEAP_HASNULL is bit 0 of t_infomask, the
      column count is the low 11 bits of t_infomask2, and t_hoff is 8-aligned. */
  function HeaderFor(m: TupleMeta, row: seq<Value>): TupleHeader {
    TupleHeader(m.xmin, m.xmax, m.field3, m.ctidHi, m.ctidLo, m.ctidPos,
                0x0800 * m.attrFlags + |row|,
                2 * m.flags + (if HasNulls(row) then 1 else 0),
                AlignUp(23 + |BitmapOf(row)|, 8))
  }

  lemma HeaderForFits(m: TupleMeta, row: seq<Value>)
    requires m.Valid() && |row| <= MAX_HEAP_ATTRIBUTES
    ensures var h := HeaderFor(m, row);
            && h.infomask2 < 0x1_0000 && h.infomask < 0x1_0000 && h.hoff < 256
            && h.infomask2 % 0x0800 == |row|
            && (HasBit(h.infomask, 0x0001) <==> HasNulls(row))
            && 23 + |BitmapOf(row)| <= h.hoff
  {
    MaskFields(m.attrFlags, |row|);
    LowBit(if HasNulls(row) then 1 else 0, m.flags);
    assert |BitmapOf(row)| <= 200;
  }

  lemma MaskFields(flags: nat, n: nat)
    requires flags < 0x20 && n < 0x0800
    ensures 0x0800 * flags + n < 0x1_0000 && (0x0800 * flags + n) % 0x0800 == n
  {
  }

  function EncodeHeader(h: TupleHeader): (b: seq<byte>)
    requires h.xmin < 0x1_0000_0000 && h.xmax < 0x1_0000_0000 && h.field3 < 0x1_0000_0000
    requires h.ctidHi < 0x1_0000 && h.ctidLo < 0x1_0000 && h.ctidPos < 0x1_0000
    requires h.infomask2 < 0x1_0000 && h.infomask < 0x1_0000 && h.hoff < 256
    ensures |b| == 23
  {
    LE32(h.xmin) + LE32(h.xmax) + LE32(h.field3) + LE16(h.ctidHi) + LE16(h.ctidLo) + LE16(h.ctidPos)
    + LE16(h.infomask2) + LE16(h.infomask) + [h.hoff]
  }

  lemma HalfWordReadsBack(data: seq<byte>, at: nat, h: seq<byte>)
    requires |h| == 2 && Holds(data, at, h)
    ensures U16(data, at) == U16(h, 0)
  {
    HoldsAt(data, at, h, 0);
    HoldsAt(data, at, h, 1);
  }

  lemma HoldsTwo(data: seq<byte>, off: nat, a: seq<byte>, b: seq<byte>, c: seq<byte>)
    requires Holds(data, off, a + b + c)
    ensures Holds(data, off, a) && Holds(data, off + |a|, b) && Holds(data, off + |a| + |b|, c)
  {
    HoldsSplit(data, off, a + b, c);
    HoldsSplit(data, off, a, b);
  }

  lemma HeaderReadsBack(h: TupleHeader, raw: seq<byte>)
    requires h.xmin < 0x1_0000_0000 && h.xmax < 0x1_0000_0000 && h.field3 < 0x1_0000_0000
    requires h.ctidHi < 0x1_0000 && h.ctidLo < 0x1_0000 && h.ctidPos < 0x1_0000
    requires h.infomask2 < 0x1_0000 && h.infomask < 0x1_0000 && h.hoff < 256
    requires Holds(raw, 0, EncodeHeader(h))
    ensures ParseHeader(raw) == h
  {
    var (xmin, xmax, field3) := (LE32(h.xmin), LE32(h.xmax), LE32(h.field3));
    var (hi, lo, pos) := (LE16(h.ctidHi), LE16(h.ctidLo), LE16(h.ctidPos));
    var (mask2, mask, hoff) := (LE16(h.infomask2), LE16(h.infomask), [h.hoff as byte]);
    HoldsTwo(raw, 0, xmin + xmax + field3 + hi + lo + pos + mask2, mask, hoff);
    HoldsTwo(raw, 0, xmin + xmax + field3 + hi + lo, pos, mask2);
    HoldsTwo(raw, 0, xmin + xmax + field3, hi, lo);
    HoldsTwo(raw, 0, xmin, xmax, field3);
    WordReadsBack(raw, 0, xmin);
    WordReadsBack(raw, 4, xmax);
    WordReadsBack(raw, 8, field3);
    HalfWordReadsBack(raw, 12, hi);
    HalfWordReadsBack(raw, 14, lo);
    HalfWordReadsBack(raw, 16, pos);
    HalfWordReadsBack(raw, 18, mask2);
    HalfWordReadsBack(raw, 20, mask);
    HoldsAt(raw, 22, hoff, 0);
  }

  function EncodeTuple(m: TupleMeta, layouts: seq<ColLayout>, row: seq<Value>): seq<byte>
    requires m.Valid() && RowFits(layouts, row) && |row| <= MAX_HEAP_ATTRIBUTES
  {
    HeaderForFits(m, row);
    var h := HeaderFor(m, row);
    var bitmap := BitmapOf(row);
    EncodeHeader(h) + bitmap + Zeros(h.hoff - 23 - |bitmap|) + EncodeRow(layouts, row)
  }

  lemma PartsParse(raw: seq<byte>, h: TupleHeader, bitmap: seq<byte>, data: seq<byte>)
    requires |raw| >= 23 && ParseHeader(raw) == h && 23 + |bitmap| <= h.hoff <= |raw|
    requires |bitmap| == if HasBit(h.infomask, 0x0001) then (h.infomask2 % 0x0800 + 7) / 8 else 0
    requires raw[23..23 + |bitmap|] == bitmap && raw[h.hoff..] == data
    ensures ParseAndBuild(raw) == Ok(HeapTuple(h, bitmap, data))
  {
  }

  lemma BitmapLength(m: TupleMeta, row: seq<Value>)
    requires m.Valid() && |row| <= MAX_HEAP_ATTRIBUTES
    ensures var h := HeaderFor(m, row);
            |BitmapOf(row)| == if HasBit(h.infomask, 0x0001) then (h.infomask2 % 0x0800 + 7) / 8 else 0
  {
    HeaderForFits(m, row);
  }

  /** Parsing a stored tuple gives back its header, a bitmap marking exactly the NULL
      columns, and the data area. */
  lemma ParseInvertsTuple(m: TupleMeta, layouts: seq<ColLayout>, row: seq<Value>)
    requires m.Valid() && RowFits(layouts, row) && |row| <= MAX_HEAP_ATTRIBUTES
    ensures ParseAndBuild(EncodeTuple(m, layouts, row)) ==
            Ok(HeapTuple(HeaderFor(m, row), BitmapOf(row), EncodeRow(layouts, row)))
    ensures NullsMatch(BitmapOf(row), row)
  {
    HeaderForFits(m, row);
    var h, bitmap, data := HeaderFor(m, row), BitmapOf(row), EncodeRow(layouts, row);
    var head, pad := EncodeHeader(h), Zeros(h.hoff - 23 - |bitmap|);
    var raw := EncodeTuple(m, layouts, row);
    assert raw[0..0 + |raw|] == raw == head + bitmap + pad + data;
    HoldsTwo(raw, 0, head + bitmap, pad, data);
    HoldsSplit(raw, 0, head, bitmap);
    HeaderReadsBack(h, raw);
    assert raw[h.hoff..] == data;
    BitmapLength(m, row);
    PartsParse(raw, h, bitmap, data);
    BitmapReadsBack(row);
  }
}
