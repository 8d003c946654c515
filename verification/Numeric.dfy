/** On-disk NUMERIC payloads decoded into scaled integers (src/types/arrow.rs). */
module Numeric {
  import opened Base

  const NBASE := 10_000
  const I128_MAX := 0x7FFF_FFFF_FFFF_FFFF_FFFF_FFFF_FFFF_FFFF
  const I128_MIN := -0x8000_0000_0000_0000_0000_0000_0000_0000
  const I256_HALF := 0x8000_0000_0000_0000_0000_0000_0000_0000_0000_0000_0000_0000_0000_0000_0000_0000
  const I256_MODULUS := 2 * I256_HALF

  predicate InI128(x: int) { I128_MIN <= x <= I128_MAX }
  predicate InI256(x: int) { -I256_HALF <= x < I256_HALF }

  function TwoTo(k: nat): nat { if k == 0 then 1 else 2 * TwoTo(k - 1) }

  lemma {:induction false} TwoToDoubles(j: nat, k: nat)
    ensures TwoTo(j + k) == TwoTo(j) * TwoTo(k)
  {
    if k > 0 {
      TwoToDoubles(j, k - 1);
    }
  }

  lemma Doubled(k: nat, w: nat)
    requires TwoTo(k) == w
    ensures TwoTo(2 * k) == w * w
  {
    TwoToDoubles(k, k);
  }

  lemma SixtyFour(n: nat)
    requires n == 1
    ensures TwoTo(64 * n) == 0x1_0000_0000_0000_0000
  {
    assert TwoTo(n) == 2 * TwoTo(n - 1);
    Doubled(n, 2);
    Doubled(2 * n, 4);
    Doubled(4 * n, 16);
    Doubled(8 * n, 256);
    Doubled(16 * n, 0x1_0000);
    Doubled(32 * n, 0x1_0000_0000);
  }

  /** The integer types have 128 and 256 bits. */
  lemma WidthsAreRight(bits: nat)
    ensures bits == 128 ==> I128_MAX == TwoTo(bits - 1) - 1 && I128_MIN == 0 - TwoTo(bits - 1)
    ensures bits == 256 ==> I256_HALF == TwoTo(bits - 1) && I256_MODULUS == TwoTo(bits)
  {
    if bits == 128 || bits == 256 {
      var n: nat :| n == 1;
      SixtyFour(n);
      Doubled(64 * n, 0x1_0000_0000_0000_0000);
      Doubled(128 * n, 0x1_0000_0000_0000_0000 * 0x1_0000_0000_0000_0000);
      assert TwoTo(bits) == 2 * TwoTo(bits - 1);
    }
  }

  // ── Header ───────────────────────────────────────────────────────────────

  datatype Header = Header(digits: seq<int>, weight: int, dscale: nat, neg: bool)

  /** The 16-bit digits of `bytes`; an odd trailing byte is ignored. */
  function Digits(bytes: seq<byte>): (d: seq<int>)
    ensures |d| == |bytes| / 2
    ensures forall i :: 0 <= i < |d| ==> d[i] == I16(bytes, 2 * i)
  {
    seq(|bytes| / 2, i requires 0 <= i < |bytes| / 2 => I16(bytes, 2 * i))
  }

  /** Short form: flag bits 10, sign 0x2000, dscale 0x1F80 >> 7, 7-bit two's-complement
      weight. Long form: sign and dscale, then a 16-bit weight. NaN and infinities: None. */
  function ParseHeader(bytes: seq<byte>): Option<Header> {
    if |bytes| < 2 then None
    else
      var header := U16(bytes, 0);
      if header / 0x4000 == 3 then None
      else if header / 0x8000 == 1 then
        var raw := header % 0x40;
        Some(Header(Digits(bytes[2..]), if HasBit(header, 0x40) then raw - 0x40 else raw,
                    header / 0x80 % 0x40, HasBit(header, 0x2000)))
      else if |bytes| < 4 then None
      else
        Some(Header(Digits(bytes[4..]), I16(bytes, 2), header % 0x4000, header / 0x4000 == 1))
  }

  // ── Arithmetic ───────────────────────────────────────────────────────────

  function Pow10(k: nat): (r: nat)
    ensures r > 0
  {
    if k == 0 then 1 else 10 * Pow10(k - 1)
  }

  /** Division truncating toward zero. */
  function TruncDiv(x: int, y: int): int
    requires y > 0
  {
    if x >= 0 then x / y else -((-x) / y)
  }

  function Saturate(x: int): int {
    if x > I128_MAX then I128_MAX else if x < I128_MIN then I128_MIN else x
  }

  /** The 256-bit integer congruent to x. */
  function Wrap256(x: int): (r: int)
    ensures InI256(r) && (r - x) % I256_MODULUS == 0
  {
    if InI256(x) then x else (x + I256_HALF) % I256_MODULUS - I256_HALF
  }

  /** `x as i8`. */
  function AsI8(x: int): (r: int)
    ensures -128 <= r < 128 && (r - x) % 256 == 0
  {
    (x + 128) % 256 - 128
  }

  function Negate(neg: bool, x: int): int { if neg then -x else x }

  /** The integer whose base-10000 digits are `d`, most significant first. */
  function Horner(d: seq<int>): int {
    if d == [] then 0 else NBASE * Horner(d[..|d| - 1]) + d[|d| - 1]
  }

  /** No product or sum of the Horner loop leaves i128. */
  predicate HornerFits(d: seq<int>) {
    d == [] || (HornerFits(d[..|d| - 1]) && InI128(NBASE * Horner(d[..|d| - 1])) && InI128(Horner(d)))
  }

  lemma {:induction false} HornerFitsPrefix(d: seq<int>, k: nat)
    requires k <= |d| && HornerFits(d)
    ensures HornerFits(d[..k])
  {
    if k < |d| {
      HornerFitsPrefix(d[..|d| - 1], k);
      assert d[..|d| - 1][..k] == d[..k];
    } else {
      assert d[..k] == d;
    }
  }

  /** Decimal places implied by the digit count and weight. */
  function NaturalScale(h: Header): int { (|h.digits| - 1 - h.weight) * 4 }

  /** `Overflow` stands for an arithmetic operation leaving its type. */
  datatype Decoded = NotFinite | Overflow | Number(value: int, scale: int)

  /** Largest `k` with 10^k in i128. */
  const MAX_POW10 := 38

  function DecodedI128(bytes: seq<byte>): Decoded {
    match ParseHeader(bytes)
    case None => NotFinite
    case Some(h) => ValueI128(h)
  }

  function ValueI128(h: Header): Decoded {
    if h.digits == [] then Number(0, AsI8(h.dscale))
    else if !HornerFits(h.digits) then Overflow
    else
      var diff := h.dscale - NaturalScale(h);
      if diff > MAX_POW10 || diff < -MAX_POW10 then Overflow
      else
        var v := if diff >= 0 then Saturate(Horner(h.digits) * Pow10(diff))
                 else TruncDiv(Horner(h.digits), Pow10(-diff));
        if h.neg && v == I128_MIN then Overflow
        else Number(Negate(h.neg, v), AsI8(h.dscale))
  }

  /** 10^k leaves i128 exactly when k > 38. */
  lemma Pow10Fits(k: nat)
    ensures Pow10(k) <= I128_MAX <==> k <= MAX_POW10
  {
    Pow10At38();
    if k < MAX_POW10 {
      Pow10Grows(k, MAX_POW10);
    } else if k > MAX_POW10 {
      Pow10Grows(MAX_POW10 + 1, k);
    }
  }

  lemma Pow10At38()
    ensures Pow10(38) == 100_000_000_000_000_000_000_000_000_000_000_000_000
    ensures Pow10(39) == 10 * Pow10(38)
  {
    assert Pow10(10) == 10_000_000_000;
    assert Pow10(20) == 100_000_000_000_000_000_000;
    assert Pow10(30) == 1_000_000_000_000_000_000_000_000_000_000;
  }

  lemma {:induction false} Pow10Grows(j: nat, k: nat)
    requires j <= k
    ensures Pow10(j) <= Pow10(k)
    decreases k - j
  {
    if j < k {
      Pow10Grows(j + 1, k);
    }
  }

  /** Checked i128 operations: None when the result leaves the type. */
  function Checked(x: int): Option<int> { if InI128(x) then Some(x) else None }

  /** `10_i128.pow(k)`. */
  function CheckedPow10(k: nat): (r: Option<int>)
    ensures r.Some? ==> r.value == Pow10(k)
    ensures r.Some? <==> k <= MAX_POW10
  {
    Pow10Fits(k);
    Checked(Pow10(k))
  }

  /** The accumulation loop, every operation checked. */
  method HornerI128(d: seq<int>) returns (r: Option<int>)
    ensures r == if HornerFits(d) then Some(Horner(d)) else None
  {
    var value := 0;
    for i := 0 to |d|
      invariant HornerFits(d[..i]) && value == Horner(d[..i])
    {
      assert d[..i + 1][..i] == d[..i];
      if HornerFits(d) {
        HornerFitsPrefix(d, i + 1);
      }
      var scaled := Checked(value * NBASE);
      if scaled.None? {
        return None;
      }
      var next := Checked(scaled.value + d[i]);
      if next.None? {
        return None;
      }
      value := next.value;
    }
    assert d[..|d|] == d;
    return Some(value);
  }

  method DecodeI128(bytes: seq<byte>) returns (r: Decoded)
    ensures r == DecodedI128(bytes)
  {
    var header := ParseHeader(bytes);
    if header.None? {
      return NotFinite;
    }
    r := DecodeHeaderI128(header.value);
  }

  method DecodeHeaderI128(h: Header) returns (r: Decoded)
    ensures r == ValueI128(h)
  {
    if |h.digits| == 0 {
      return Number(0, AsI8(h.dscale));
    }
    var horner := HornerI128(h.digits);
    if horner.None? {
      return Overflow;
    }
    var value := horner.value;
    var diff := h.dscale - NaturalScale(h);
    if diff > 0 {
      var power := CheckedPow10(diff);
      if power.None? {
        return Overflow;
      }
      value := Saturate(value * power.value);
    } else if diff < 0 {
      var power := CheckedPow10(-diff);
      if power.None? {
        return Overflow;
      }
      value := TruncDiv(value, power.value);
    }
    if h.neg {
      if value == I128_MIN {
        return Overflow;
      }
      value := -value;
    }
    return Number(value, AsI8(h.dscale));
  }

  // ── The i256 decoder ─────────────────────────────────────────────────────

  function HornerWrap(d: seq<int>): int {
    if d == [] then 0 else Wrap256(Wrap256(HornerWrap(d[..|d| - 1]) * NBASE) + d[|d| - 1])
  }

  /** Accumulation and scaling wrap at 256 bits; only the power of ten, an i128, can overflow. */
  function DecodedI256(bytes: seq<byte>): Decoded {
    match ParseHeader(bytes)
    case None => NotFinite
    case Some(h) => ValueI256(h)
  }

  function ValueI256(h: Header): Decoded {
    if h.digits == [] then Number(0, AsI8(h.dscale))
    else
      var diff := h.dscale - NaturalScale(h);
      if diff > MAX_POW10 || diff < -MAX_POW10 then Overflow
      else
        var v := if diff > 0 then Wrap256(HornerWrap(h.digits) * Pow10(diff))
                 else if diff < 0 then TruncDiv(HornerWrap(h.digits), Pow10(-diff))
                 else HornerWrap(h.digits);
        Number(if h.neg then Wrap256(-v) else v, AsI8(h.dscale))
  }

  method DecodeI256(bytes: seq<byte>) returns (r: Decoded)
    ensures r == DecodedI256(bytes)
  {
    var header := ParseHeader(bytes);
    if header.None? {
      return NotFinite;
    }
    r := DecodeHeaderI256(header.value);
  }

  method DecodeHeaderI256(h: Header) returns (r: Decoded)
    ensures r == ValueI256(h)
  {
    if |h.digits| == 0 {
      return Number(0, AsI8(h.dscale));
    }
    var value := 0;
    for i := 0 to |h.digits|
      invariant value == HornerWrap(h.digits[..i])
    {
      assert h.digits[..i + 1][..i] == h.digits[..i];
      value := Wrap256(Wrap256(value * NBASE) + h.digits[i]);
    }
    assert h.digits[..|h.digits|] == h.digits;
    var diff := h.dscale - NaturalScale(h);
    if diff > 0 {
      var power := CheckedPow10(diff);
      if power.None? {
        return Overflow;
      }
      value := Wrap256(value * power.value);
    } else if diff < 0 {
      var power := CheckedPow10(-diff);
      if power.None? {
        return Overflow;
      }
      value := TruncDiv(value, power.value);
    }
    if h.neg {
      value := Wrap256(-value);
    }
    return Number(value, AsI8(h.dscale));
  }
}
