/** Columns beyond Decimal128: what the 256-bit decoder makes of their values
    (src/types/arrow.rs:149-176, 448-463). */
module NumericWide {
  import opened Base
  import opened Codec
  import opened Numeric
  import opened NumericExact
  import opened NumericFormat
  import opened NumericWrap
  import opened NumericBound
  import opened NumericRescale
  import opened Builder

  lemma Pow10At76()
    ensures 2 * Pow10(76) < I256_MODULUS
  {
    Pow10At38();
    Pow10Adds(38, 38);
  }

  // ── Values of a NUMERIC(p, s) column ────────────────────────────────────

  /** A stored value m / 10^s fits when it lies at most 38 decimals above its scale and m, or
      the longer accumulation, is a signed 256-bit integer. */
  predicate FitsWide(h: Numeric.Header, s: nat, m: nat) {
    h.digits == [] ||
    (s - NaturalScale(h) <= MAX_POW10
     && if NaturalScale(h) <= s then InI256(Negate(h.neg, m)) else m * Pow10(NaturalScale(h) - s) < I256_HALF)
  }

  lemma FitsWideIff(h: Numeric.Header, p: nat, s: nat, m: nat)
    requires Stores(h, p, s, m)
    ensures FitsWide(h, s, m) <==> FitsI256(h)
    ensures NeedsLargePower(h) <==> h.digits != [] && s - NaturalScale(h) > MAX_POW10
  {
    StoredValue(h, p, s, m);
  }

  /** For every NUMERIC(p, s), a value m / 10^s decodes to exactly m at scale s iff it fits and
      s is below 128. It fails only when it has so many zero digits that it lies 39 or more
      decimals above s; other values that do not fit decode, wrapped, to a wrong number. */
  lemma WideColumnDecodesIff(bytes: seq<byte>, p: nat, s: nat, m: nat)
    requires StoredAs(bytes, p, s, m)
    ensures var h := ParseHeader(bytes).value;
            && (DecodedI256(bytes) == Number(Negate(h.neg, m), s) <==> s < 128 && FitsWide(h, s, m))
            && (DecodedI256(bytes) == Overflow <==> h.digits != [] && s - NaturalScale(h) > MAX_POW10)
  {
    var h := ParseHeader(bytes).value;
    StoredValue(h, p, s, m);
    FitsWideIff(h, p, s, m);
    I256IsExactIff(h);
    I8RoundTrip(s);
    ScaleIsReported(h);
  }

  lemma ScaleIsReported(h: Numeric.Header)
    ensures ValueI256(h) == Overflow || (ValueI256(h).Number? && ValueI256(h).scale == AsI8(h.dscale))
  {
  }

  // ── What a column's builder appends ─────────────────────────────────────

  /** The precision, truncated to u8, picks the decoder; at the column's own scale the builder
      appends what was decoded. */
  lemma ColumnEntry(p: nat, s: nat, nullable: bool, bytes: seq<byte>)
    requires 1 <= p < 0x8000 && s < 0x1_0000
    ensures match if p % 0x100 <= 38 then DecodedI128(bytes) else DecodedI256(bytes)
            case NotFinite => EntryFor(NumericColumn(p, s, nullable), bytes) == Ok(NullEntry)
            case Overflow => EntryFor(NumericColumn(p, s, nullable), bytes) == Err(Panic)
            case Number(v, scale) => scale == AsI8(s) ==> EntryFor(NumericColumn(p, s, nullable), bytes) == Ok(Decimal(v))
  {
    TypmodFields(p, s);
  }

  /** A stored value m / 10^s fits the decoder that the column's precision picks. */
  predicate FitsColumn(h: Numeric.Header, p: nat, s: nat, m: nat) {
    if p % 0x100 <= 38 then FitsI128(h) && m <= I128_MAX else FitsWide(h, s, m)
  }

  /** End to end, for every NUMERIC(p, s): a stored value is appended as exactly the signed
      integer m iff it fits. */
  lemma ValueIsAppendedIff(p: nat, s: nat, nullable: bool, bytes: seq<byte>, m: nat)
    requires 1 <= p < 0x8000 && StoredAs(bytes, p, s, m)
    ensures var h := ParseHeader(bytes).value;
            EntryFor(NumericColumn(p, s, nullable), bytes) == Ok(Decimal(Negate(h.neg, m))) <==> FitsColumn(h, p, s, m)
  {
    var h := ParseHeader(bytes).value;
    ColumnEntry(p, s, nullable, bytes);
    StoredValue(h, p, s, m);
    NumericDecodesIff(bytes);
    FitsWideIff(h, p, s, m);
    I256IsExactIff(h);
    ScaleIsReported(h);
  }

  /** What a Decimal256 column makes of a stored value: the value, wrapped, or a panic. */
  function WideOutcome(h: Numeric.Header, s: nat, m: nat): Result<Entry> {
    var n := NaturalScale(h);
    if h.digits == [] then Ok(Decimal(0))
    else if s - n > MAX_POW10 then Err(Panic)
    else if n <= s then Ok(Decimal(Wrap256(Negate(h.neg, m))))
    else Ok(Decimal(Negate(h.neg, TruncDiv(Wrap256(m * Pow10(n - s)), Pow10(n - s)))))
  }

  lemma WideValueIsAppended(p: nat, s: nat, nullable: bool, bytes: seq<byte>, m: nat)
    requires p % 0x100 > 38 && p < 0x8000 && StoredAs(bytes, p, s, m)
    ensures EntryFor(NumericColumn(p, s, nullable), bytes) == WideOutcome(ParseHeader(bytes).value, s, m)
  {
    var h := ParseHeader(bytes).value;
    ColumnEntry(p, s, nullable, bytes);
    StoredValue(h, p, s, m);
    ValueIsWrapped(h);
  }

  // ── Which wide columns are safe ─────────────────────────────────────────

  /** The least number of decimals, 39 or more, that a digit boundary can lie above scale s. */
  function FarBoundary(s: nat): (g: nat)
    ensures 39 <= g <= 42 && (s - g) % 4 == 0
  {
    39 + (s + 1) % 4
  }

  function BoundaryWeight(s: nat): (w: int)
    ensures 4 * w == FarBoundary(s) - s && -w <= s && w <= 10
  {
    (FarBoundary(s) - s) / 4
  }

  /** A single digit 1, `FarBoundary(s)` decimals above scale s. */
  function RoundNumber(s: nat): Numeric.Header { Header([1], BoundaryWeight(s), s, false) }

  lemma OneDigit(weight: int, s: nat)
    requires s < 0x4000 && -0x8000 <= weight < 0x8000
    ensures var h := Header([1], weight, s, false);
            LongForm(h) && IsDigits(h.digits) && ParseHeader(Encode(h)) == Some(h) && Horner(h.digits) == 1
  {
    ParseInvertsEncode(Header([1], weight, s, false));
    assert [1][..0] == [];
  }

  lemma RoundNumberMagnitude(s: nat)
    ensures var h := RoundNumber(s);
            Magnitude(h.digits, h.weight) == Shift(Pow10(FarBoundary(s)) as real, 0 - s)
  {
    var h, g := RoundNumber(s), FarBoundary(s);
    assert h.digits[..0] == [];
    HornerIsMagnitude(h.digits, h.weight);
    ShiftOfInt(1, g);
    ShiftTwice(1.0, g, 0 - s);
  }

  lemma RoundNumberParses(s: nat)
    requires s < 0x4000
    ensures var h := RoundNumber(s);
            LongForm(h) && IsDigits(h.digits) && ParseHeader(Encode(h)) == Some(h) && Gap(h) == FarBoundary(s)
  {
    OneDigit(BoundaryWeight(s), s);
  }

  lemma OneDigitIsStored(bytes: seq<byte>, weight: int, p: nat, s: nat, m: nat)
    requires m < Pow10(p) && Magnitude([1], weight) == Shift(m as real, 0 - s)
    requires ParseHeader(bytes) == Some(Header([1], weight, s, false))
    ensures StoredAs(bytes, p, s, m)
  {
  }

  lemma PowersGrow(g: nat, p: nat)
    requires g < p
    ensures Pow10(g) < Pow10(p)
  {
    Pow10Grows(g + 1, p);
  }

  lemma RoundNumberIsStored(p: nat, s: nat)
    requires s < 0x4000 && p > FarBoundary(s)
    ensures var h := RoundNumber(s);
            && LongForm(h) && IsDigits(h.digits) && StoredAs(Encode(h), p, s, Pow10(FarBoundary(s)))
  {
    var g := FarBoundary(s);
    RoundNumberParses(s);
    RoundNumberMagnitude(s);
    PowersGrow(g, p);
    OneDigitIsStored(Encode(RoundNumber(s)), BoundaryWeight(s), p, s, Pow10(g));
  }

  /** A value of so few digits is not that far above scale s, and its accumulation is short. */
  lemma NarrowValueFits(h: Numeric.Header, p: nat, s: nat, m: nat)
    requires Stores(h, p, s, m) && p <= FarBoundary(s)
    ensures FitsWide(h, s, m)
  {
    StoredIsBounded(h, p, s, m);
    StoredValue(h, p, s, m);
    if h.digits != [] {
      NarrowBounds(p, s);
      if Gap(h) > MAX_POW10 {
        FactorsBound(Horner(h.digits), Pow10(Gap(h)), m);
        BoundaryIsFar(h, s);
        Pow10Grows(p, Gap(h));
      }
    }
  }

  lemma NarrowBounds(p: nat, s: nat)
    requires p <= FarBoundary(s)
    ensures Pow10(p) <= Pow10(p + Slack(s)) < I256_HALF
  {
    Pow10At76();
    Pow10Grows(p + Slack(s), 76);
    Pow10Grows(p, p + Slack(s));
  }

  lemma BoundaryIsFar(h: Numeric.Header, s: nat)
    requires h.dscale == s && Gap(h) > MAX_POW10
    ensures Gap(h) >= FarBoundary(s)
  {
    assert NaturalScale(h) % 4 == 0;
  }

  /** Every value of a NUMERIC(p, s) column decodes exactly in 256 bits iff s fits in an i8
      and p is at most 39, 40, 41 or 42, as s leaves 3, 0, 1 or 2 modulo 4. */
  lemma WideColumnIsSafeIff(p: nat, s: nat)
    requires s < 0x4000
    ensures p <= FarBoundary(s) && s < 128 <==>
            (forall bytes, m: nat :: StoredAs(bytes, p, s, m) ==>
              DecodedI256(bytes) == Number(Negate(ParseHeader(bytes).value.neg, m), s))
  {
    if p > FarBoundary(s) {
      RoundNumberParses(s);
      RoundNumberIsStored(p, s);
      WideColumnDecodesIff(Encode(RoundNumber(s)), p, s, Pow10(FarBoundary(s)));
    } else if s >= 128 {
      ZeroIsStored(p, s);
      WideColumnDecodesIff(Encode(Header([], 0, s, false)), p, s, 0);
    } else {
      forall bytes, m: nat | StoredAs(bytes, p, s, m)
        ensures DecodedI256(bytes) == Number(Negate(ParseHeader(bytes).value.neg, m), s)
      {
        WideColumnDecodesIff(bytes, p, s, m);
        NarrowValueFits(ParseHeader(bytes).value, p, s, m);
      }
    }
  }

  /** Every longer column with a Decimal256 builder has a round number that panics: 10^40 in
      NUMERIC(50, 0) does. */
  lemma RoundNumberPanics(p: nat, s: nat, nullable: bool)
    requires FarBoundary(s) < p < 0x8000 && p % 0x100 > 38 && s < 0x4000
    ensures var h := RoundNumber(s);
            && LongForm(h) && IsDigits(h.digits) && StoredAs(Encode(h), p, s, Pow10(FarBoundary(s)))
            && EntryFor(NumericColumn(p, s, nullable), Encode(h)) == Err(Panic)
  {
    RoundNumberParses(s);
    RoundNumberIsStored(p, s);
    ColumnEntry(p, s, nullable, Encode(RoundNumber(s)));
    I256IsExactIff(RoundNumber(s));
  }

  /** Every value of a NUMERIC(p, s) column is appended as it is. */
  ghost predicate AllAppended(p: nat, s: nat, nullable: bool) {
    forall bytes, m: nat :: StoredAs(bytes, p, s, m) ==>
      EntryFor(NumericColumn(p, s, nullable), bytes) == Ok(Decimal(Negate(ParseHeader(bytes).value.neg, m)))
  }

  lemma NarrowValueIsAppended(p: nat, s: nat, nullable: bool, bytes: seq<byte>, m: nat)
    requires 38 < p <= FarBoundary(s) && StoredAs(bytes, p, s, m)
    ensures EntryFor(NumericColumn(p, s, nullable), bytes) == Ok(Decimal(Negate(ParseHeader(bytes).value.neg, m)))
  {
    assert p % 0x100 == p;
    ValueIsAppendedIff(p, s, nullable, bytes, m);
    NarrowValueFits(ParseHeader(bytes).value, p, s, m);
  }

  lemma UnsafeColumnPanics(p: nat, s: nat, nullable: bool) returns (bytes: seq<byte>, m: nat)
    requires 1 <= p < 0x8000 && s < 0x4000 && p + Slack(s) > 38 && !(38 < p <= FarBoundary(s))
    ensures StoredAs(bytes, p, s, m) && EntryFor(NumericColumn(p, s, nullable), bytes) == Err(Panic)
  {
    if p % 0x100 <= 38 {
      bytes, m := OverflowIsStored(p, s);
      ColumnEntry(p, s, nullable, bytes);
    } else {
      RoundNumberPanics(p, s, nullable);
      bytes, m := Encode(RoundNumber(s)), Pow10(FarBoundary(s));
    }
  }

  /** For every precision and scale: all values of the column are appended as they are iff p
      plus slack is at most 38, or p is from 39 to 42 and not beyond the digit boundary. Each
      other column, those whose precision is truncated among them, has a value that panics. */
  lemma ColumnIsAppendedIff(p: nat, s: nat, nullable: bool)
    requires 1 <= p < 0x8000 && s < 0x4000
    ensures AllAppended(p, s, nullable) <==> p + Slack(s) <= 38 || 38 < p <= FarBoundary(s)
  {
    if p + Slack(s) <= 38 || 38 < p <= FarBoundary(s) {
      forall bytes, m: nat | StoredAs(bytes, p, s, m)
        ensures EntryFor(NumericColumn(p, s, nullable), bytes) == Ok(Decimal(Negate(ParseHeader(bytes).value.neg, m)))
      {
        if p + Slack(s) <= 38 {
          ColumnValueIsAppended(p, s, nullable, bytes, m);
        } else {
          NarrowValueIsAppended(p, s, nullable, bytes, m);
        }
      }
    } else {
      var bytes, m := UnsafeColumnPanics(p, s, nullable);
    }
  }

  /** The whole number x, digit by digit. */
  function Whole(x: nat): Numeric.Header { Header(ToDigits(x), |ToDigits(x)| - 1, 0, false) }

  lemma ModulusIsShort()
    ensures I256_MODULUS <= Pow10(80)
  {
    Pow10At38();
    Pow10Adds(38, 38);
    Pow10Adds(76, 4);
    assert Pow10(4) == NBASE;
  }

  lemma WholeParses(x: nat)
    requires x < I256_MODULUS
    ensures var h := Whole(x);
            LongForm(h) && IsDigits(h.digits) && ParseHeader(Encode(h)) == Some(h) && Horner(h.digits) == x
  {
    HornerOfDigits(x);
    ModulusIsShort();
    DigitCount(x, 20);
    ParseInvertsEncode(Whole(x));
  }

  lemma WholeIsStored(h: Numeric.Header, p: nat, x: nat)
    requires h == Whole(x) && Horner(h.digits) == x && 0 < x < Pow10(p) && x % NBASE != 0
    ensures Stores(h, p, 0, x)
  {
    HornerIsMagnitude(h.digits, h.weight);
  }

  /** For example, from 2^255 up to 2^256, any number not ending in four zeros is appended to a
      NUMERIC(p, 0) column that long, without any error, as a negative number. */
  lemma LargeValueWraps(p: nat, x: nat, nullable: bool)
    requires p % 0x100 > 38 && p < 0x8000 && I256_HALF <= x < I256_MODULUS && x < Pow10(p) && x % NBASE != 0
    ensures var h := Whole(x);
            && LongForm(h) && IsDigits(h.digits) && StoredAs(Encode(h), p, 0, x)
            && EntryFor(NumericColumn(p, 0, nullable), Encode(h)) == Ok(Decimal(x - I256_MODULUS))
  {
    var h := Whole(x);
    WholeParses(x);
    WholeIsStored(h, p, x);
    WideValueIsAppended(p, 0, nullable, Encode(h), x);
    WrapsNegative(h, x);
  }

  lemma WrapsNegative(h: Numeric.Header, x: nat)
    requires h.digits != [] && NaturalScale(h) == 0 && !h.neg && I256_HALF <= x < I256_MODULUS
    ensures WideOutcome(h, 0, x) == Ok(Decimal(x - I256_MODULUS))
  {
  }

  /** 2^255 is such a value of NUMERIC(77, 0). */
  lemma TwoTo255IsLarge()
    ensures I256_HALF < Pow10(77) && I256_HALF % NBASE != 0
  {
    Pow10At38();
    Pow10Adds(38, 38);
    assert Pow10(77) == 10 * Pow10(76);
  }

  /** NaN and the infinities become NULL in every NUMERIC column, and nothing else does. */
  lemma SpecialsAreNull(typmod: int, nullable: bool, bytes: seq<byte>)
    requires |bytes| >= 4
    ensures EntryFor(PgColumn(PgTypeId.Numeric, typmod, nullable), bytes) == Ok(NullEntry) <==> U16(bytes, 0) >= 0xC000
  {
    SpecialsAreNotFinite(bytes);
  }
}
