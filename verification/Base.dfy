/** Results, byte slices and little-endian words shared by every module. */
module Base {
  datatype Option<+T> = None | Some(value: T)

  /** The crate's error cases that decoding can reach. `Panic` stands for a
      Rust panic: an out-of-range slice, a failed `unwrap`, or an arithmetic
      overflow under overflow checks. */
  datatype PgError =
    | Generic
    | PageBufferTooShort
    | TupleBufferTooShort
    | InvalidTupleHoff
    | NullBitmapOverflow
    | DeadTupleLinePointer
    | NullColumnValue
    | ColumnNotFound
    | DecodeError
    | ArrowConversionFailed
    | Panic

  datatype Result<+T> = Ok(value: T) | Err(error: PgError) {
    predicate IsFailure() { Err? }

    function PropagateFailure<U>(): Result<U>
      requires Err?
    {
      Err(error)
    }

    function Extract(): T
      requires Ok?
    {
      value
    }
  }

  type byte = b: int | 0 <= b < 256

  const PAGE_SIZE := 8192

  /** Always true: a name for the places where a proof unfolds a definition. Some predicates
      state costly definitions under a quantifier over `Here(i, j)`, which the verifier
      instantiates only where such a term is mentioned; everywhere else they stay folded. A
      precondition written `P == true` is likewise not unfolded where it is called. */
  ghost predicate Here(i: nat, j: nat) { true }

  /** `data.get(lo..hi)`. */
  function Get(data: seq<byte>, lo: nat, hi: nat): (r: Option<seq<byte>>)
    ensures r.Some? <==> lo <= hi <= |data|
    ensures r.Some? ==> r.value == data[lo..hi]
  {
    if lo <= hi <= |data| then Some(data[lo..hi]) else None
  }

  function SatSub(x: nat, y: nat): nat { if x >= y then x - y else 0 }

  function Max(x: int, y: int): int { if x >= y then x else y }

  function Min(x: int, y: int): int { if x <= y then x else y }

  function U16(data: seq<byte>, at: nat): (w: nat)
    requires at + 2 <= |data|
    ensures w < 0x1_0000
  {
    data[at] as int + 0x100 * data[at + 1] as int
  }

  function U32(data: seq<byte>, at: nat): (w: nat)
    requires at + 4 <= |data|
    ensures w < 0x1_0000_0000
  {
    U16(data, at) + 0x1_0000 * U16(data, at + 2)
  }

  /** Two's-complement reading of a 16-bit word. */
  function I16(data: seq<byte>, at: nat): (v: int)
    requires at + 2 <= |data|
    ensures -0x8000 <= v < 0x8000
  {
    var w := U16(data, at);
    if w < 0x8000 then w else w - 0x1_0000
  }

  /** Two's-complement readings of 32-bit and 64-bit words. */
  function I32(data: seq<byte>, at: nat): (v: int)
    requires at + 4 <= |data|
    ensures -0x8000_0000 <= v <= I32_MAX
  {
    var w := U32(data, at);
    if w <= I32_MAX then w else w - 0x1_0000_0000
  }

  function I64(data: seq<byte>, at: nat): (v: int)
    requires at + 8 <= |data|
    ensures -0x8000_0000_0000_0000 <= v <= I64_MAX
  {
    var w := U32(data, at) + 0x1_0000_0000 * U32(data, at + 4);
    if w <= I64_MAX then w else w - 0x1_0000_0000_0000_0000
  }

  const I32_MAX := 0x7FFF_FFFF
  const I64_MAX := 0x7FFF_FFFF_FFFF_FFFF

  /** Words as little-endian bytes. */
  function LE16(w: nat): (b: seq<byte>)
    requires w < 0x1_0000
    ensures |b| == 2 && U16(b, 0) == w && b[0] % 2 == w % 2
  {
    [w % 0x100, w / 0x100]
  }

  function LE32(w: nat): (b: seq<byte>)
    requires w < 0x1_0000_0000
    ensures |b| == 4 && U32(b, 0) == w && b[0] % 2 == w % 2
  {
    var low, high := LE16(w % 0x1_0000), LE16(w / 0x1_0000);
    assert (low + high)[..2] == low && (low + high)[2..] == high;
    low + high
  }

  /** Signed words, in two's complement. */
  function SignedLE32(x: int): (b: seq<byte>)
    requires -0x8000_0000 <= x < 0x8000_0000
    ensures |b| == 4 && I32(b, 0) == x
  {
    LE32(if x < 0 then x + 0x1_0000_0000 else x)
  }

  function SignedLE64(x: int): (b: seq<byte>)
    requires -0x8000_0000_0000_0000 <= x < 0x8000_0000_0000_0000
    ensures |b| == 8 && I64(b, 0) == x
  {
    var w := if x < 0 then x + 0x1_0000_0000_0000_0000 else x;
    var low, high := LE32(w % 0x1_0000_0000), LE32(w / 0x1_0000_0000);
    WordsOfTwo(low, high);
    low + high
  }

  lemma WordsOfTwo(low: seq<byte>, high: seq<byte>)
    requires |low| == |high| == 4
    ensures U32(low + high, 0) == U32(low, 0) && U32(low + high, 4) == U32(high, 0)
  {
    var b := low + high;
    assert b[0] == low[0] && b[1] == low[1] && b[2] == low[2] && b[3] == low[3];
    assert b[4] == high[0] && b[5] == high[1] && b[6] == high[2] && b[7] == high[3];
  }

  /** Every four or eight bytes store a signed number. */
  lemma SignedWordsCover(b: seq<byte>)
    ensures |b| == 4 ==> SignedLE32(I32(b, 0)) == b
    ensures |b| == 8 ==> SignedLE64(I64(b, 0)) == b
  {
    if |b| == 4 {
      WordCovers(b);
    } else if |b| == 8 {
      var low, high := b[..4], b[4..];
      assert b == low + high;
      WordsOfTwo(low, high);
      WordCovers(low);
      WordCovers(high);
      DoubleWord(U32(low, 0), U32(high, 0));
    }
  }

  lemma DoubleWord(low: nat, high: nat)
    requires low < 0x1_0000_0000
    ensures (low + 0x1_0000_0000 * high) % 0x1_0000_0000 == low && (low + 0x1_0000_0000 * high) / 0x1_0000_0000 == high
  {
  }

  lemma HalfWordCovers(b: seq<byte>)
    requires |b| == 2
    ensures LE16(U16(b, 0)) == b
  {
  }

  lemma WordCovers(b: seq<byte>)
    requires |b| == 4
    ensures LE32(U32(b, 0)) == b
  {
    var low, high := b[..2], b[2..];
    HalvesOfWord(U16(low, 0), U16(high, 0));
    HalfWordCovers(low);
    HalfWordCovers(high);
    assert b == low + high;
  }

  lemma HalvesOfWord(low: nat, high: nat)
    requires low < 0x1_0000 && high < 0x1_0000
    ensures var w := low + 0x1_0000 * high; w < 0x1_0000_0000 && LE32(w) == LE16(low) + LE16(high)
  {
    var w := low + 0x1_0000 * high;
    assert w % 0x1_0000 == low && w / 0x1_0000 == high;
  }

  /** `w & mask != 0` for a mask with a single bit set. */
  predicate HasBit(w: nat, mask: nat)
    requires mask > 0
  {
    w / mask % 2 == 1
  }

  lemma SliceOfSlice(data: seq<byte>, from: nat, n: nat, at: nat, length: nat)
    requires from + n <= |data| && at + length <= n
    ensures data[from..from + n][at..at + length] == data[from + at..from + at + length]
  {
    var a, b := data[from..from + n][at..at + length], data[from + at..from + at + length];
    forall k | 0 <= k < length ensures a[k] == b[k] {
      assert a[k] == data[from..from + n][at + k];
    }
  }
}
