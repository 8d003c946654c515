/** A NUMERIC column without precision and scale: Decimal256(38, 0)
    (src/types/arrow.rs:38-42, 448-463). */
module NumericUnbound {
  import opened Base
  import opened Codec
  import opened Numeric
  import opened NumericExact
  import opened NumericFormat
  import opened NumericWrap
  import opened NumericBound
  import opened NumericRescale
  import opened NumericWide
  import opened Builder

  function UnboundColumn(nullable: bool): PgColumn { PgColumn(PgTypeId.Numeric, -1, nullable) }

  lemma CutAtPoint(v: int, d: nat)
    ensures Rescale256(v, d, 0) == if d <= MAX_POW10 then Ok(TruncDiv(v, Pow10(d))) else Err(Panic)
  {
    if d == 0 { assert Pow10(d) == 1; }
  }

  lemma UnboundEntry(nullable: bool, bytes: seq<byte>)
    ensures match DecodedI256(bytes)
            case NotFinite => EntryFor(UnboundColumn(nullable), bytes) == Ok(NullEntry)
            case Overflow => EntryFor(UnboundColumn(nullable), bytes) == Err(Panic)
            case Number(v, d) =>
              EntryFor(UnboundColumn(nullable), bytes) ==
              if !(-MAX_POW10 <= d <= MAX_POW10) then Err(Panic)
              else if d >= 0 then Ok(Decimal(TruncDiv(v, Pow10(d))))
              else Ok(Decimal(Wrap256(v * Pow10(-d))))
  {
    var r := DecodedI256(bytes);
    if r.Number? && r.scale >= 0 {
      CutAtPoint(r.value, r.scale);
    }
  }

  lemma DivTwice(x: int, j: nat, k: nat)
    ensures TruncDiv(TruncDiv(x, Pow10(j)), Pow10(k)) == TruncDiv(x, Pow10(j + k))
  {
    var y := Shift(x as real, 0 - j);
    TruncDivIsTruncate(x, j);
    TruncDivIsTruncate(Truncate(y), k);
    TruncateTwice(y, k);
    ShiftTwice(x as real, 0 - j, 0 - k);
    TruncDivIsTruncate(x, j + k);
  }

  lemma PowerIsSmall(k: nat)
    requires k <= 2 * MAX_POW10
    ensures Pow10(k) <= I256_HALF
  {
    Pow10At76();
    Pow10Grows(k, 76);
  }

  /** What decoding and cutting at the decimal point yield, from the payload's digits. */
  lemma CutValue(h: Numeric.Header)
    requires IsDigits(h.digits) && h.digits != [] && !NeedsLargePower(h) && h.dscale <= MAX_POW10
    ensures var v := ValueI256(h);
            v.Number? && (TruncDiv(v.value, Pow10(h.dscale)) == Negate(h.neg, ScaledMagnitude(h, 0)) <==> FitsI256(h))
  {
    var x, d, n := Horner(h.digits), h.dscale, NaturalScale(h);
    ValueIsWrapped(h);
    if Gap(h) >= 0 {
      CoarserMagnitude(h, d, 0);
      ScaledMagnitudeIsRescaled(h, d);
      DivOfNegation(h.neg, x * Pow10(Gap(h)), Pow10(d));
      PowerIsSmall(d);
      WrappedQuotientIff(Negate(h.neg, x * Pow10(Gap(h))), Pow10(d));
    } else {
      HornerNonNegative(h.digits);
      ScaledMagnitudeIsRescaled(h, 0);
      DivOfNegation(h.neg, TruncDiv(Wrap256(x), Pow10(-Gap(h))), Pow10(d));
      DivTwice(Wrap256(x), -Gap(h), d);
      PowerIsSmall(n);
      WrappedQuotientIff(x, Pow10(n));
    }
  }

  /** For every payload with base-10000 digits and fewer than 128 decimals: its integer part,
      truncated toward zero, is appended iff it has at most 38 decimals and fits in 256 bits.
      It panics iff it has more decimals, or needs a power of ten beyond i128. */
  lemma UnconstrainedIsCutIff(bytes: seq<byte>, nullable: bool)
    requires ParseHeader(bytes).Some?
    requires IsDigits(ParseHeader(bytes).value.digits) && ParseHeader(bytes).value.dscale < 128
    ensures var h := ParseHeader(bytes).value;
            var r := EntryFor(UnboundColumn(nullable), bytes);
            && (r == Ok(Decimal(Negate(h.neg, ScaledMagnitude(h, 0)))) <==> h.dscale <= MAX_POW10 && FitsI256(h))
            && (r == Err(Panic) <==> h.dscale > MAX_POW10 || NeedsLargePower(h))
  {
    var h := ParseHeader(bytes).value;
    UnboundEntry(nullable, bytes);
    I8RoundTrip(h.dscale);
    ScaleIsReported(h);
    if h.digits == [] {
      ShiftZero(0);
      assert TruncDiv(0, Pow10(h.dscale)) == 0;
    } else if !NeedsLargePower(h) && h.dscale <= MAX_POW10 {
      CutValue(h);
    }
  }

  // ── Any column scale ─────────────────────────────────────────────────────

  /** For every payload that fits in 256 bits and has fewer than 128 decimals, and a Decimal256
      column of any scale t: it panics iff the two scales are more than 38 apart, and is
      otherwise truncated once at t iff t is coarser, or nothing nonzero lay between and the
      result is a 256-bit integer. */
  lemma WideRescaleIff(bytes: seq<byte>, p: nat, t: int)
    requires ParseHeader(bytes).Some?
    requires var h := ParseHeader(bytes).value; IsDigits(h.digits) && FitsI256(h) && h.dscale < 128
    ensures var h := ParseHeader(bytes).value;
            var (d, e, at) := (h.dscale, ScaledMagnitude(h, h.dscale), ScaledMagnitude(h, t));
            var r := NumericEntry(Decimal256(p, t), bytes);
            && (r == Err(Panic) <==> !(-MAX_POW10 <= t - d <= MAX_POW10))
            && (r == Ok(Decimal(Negate(h.neg, at))) <==>
                -MAX_POW10 <= t - d <= MAX_POW10
                && (t <= d || (e * Pow10(t - d) == at && InI256(Negate(h.neg, at)))))
  {
    var h := ParseHeader(bytes).value;
    I8RoundTrip(h.dscale);
    I256IsExactIff(h);
    if -MAX_POW10 <= t - h.dscale <= MAX_POW10 {
      if t <= h.dscale {
        CoarserMagnitude(h, h.dscale, t);
        DivOfNegation(h.neg, ScaledMagnitude(h, h.dscale), Pow10(h.dscale - t));
        if t == h.dscale { assert Pow10(0) == 1; }
      } else {
        CoarserMagnitude(h, t, h.dscale);
        PowerFits(t - h.dscale);
        WrappedProductIff(h.neg, ScaledMagnitude(h, t), Pow10(t - h.dscale));
      }
    }
  }

  /** A truncated number multiplied back is less than a divisor away, so that wrapping cannot
      make up for what was cut off. */
  lemma WrappedProductIff(neg: bool, y: int, p: nat)
    requires 0 < p <= I256_HALF
    ensures var x := TruncDiv(y, p);
            Wrap256(Negate(neg, x) * p) == Negate(neg, y) <==> x * p == y && InI256(Negate(neg, y))
  {
    var x := TruncDiv(y, p);
    TruncDivBounds(y, p);
    TimesOfNegation(neg, x, p);
    var q := WrapIsShift(Negate(neg, x * p));
  }

  // ── Scales that do not fit in an i8 ─────────────────────────────────────

  lemma DivRem(x: nat, q: nat, p: nat, r: nat)
    requires p > 0 && r < p && x == q * p + r
    ensures x / p == q && x % p == r
  {
    QuotientBounds(x, p);
    if x / p < q { TimesMonotone(x / p + 1, q, p); }
    if x / p > q { TimesMonotone(q + 1, x / p, p); }
  }

  lemma FitsInDigits(h: Numeric.Header)
    requires IsDigits(h.digits) && h.digits != [] && FitsI256(h)
    ensures 0 <= Horner(h.digits) < Pow10(80)
  {
    var x := Horner(h.digits);
    HornerNonNegative(h.digits);
    ModulusIsShort();
    if Gap(h) >= 0 {
      TimesMonotone(1, Pow10(Gap(h)), x);
    }
  }

  /** A payload that fits in 256 bits and has 128 or more decimals is below 1. */
  lemma LongScaleIsBelowOne(h: Numeric.Header)
    requires IsDigits(h.digits) && FitsI256(h) && h.dscale >= 128
    ensures ScaledMagnitude(h, 0) == 0
  {
    ScaledMagnitudeIsRescaled(h, 0);
    if h.digits == [] {
      ShiftZero(0);
    } else {
      FitsInDigits(h);
      Pow10Grows(80, NaturalScale(h));
      DivRem(Horner(h.digits), 0, Pow10(NaturalScale(h)), Horner(h.digits));
    }
  }

  /** What becomes of a decoded value whose scale was truncated to `d`. */
  function Moved(v: int, d: int): int {
    if d >= 0 then TruncDiv(v, Pow10(d)) else Wrap256(v * Pow10(-d))
  }

  /** For every payload with 128 or more decimals: it panics iff it needs a power of ten beyond
      i128 or its truncated scale is more than 38 from 0; and otherwise its integer part is
      appended iff that is what the truncated scale makes of its wrapped value. */
  lemma LongScaleIsCutIff(bytes: seq<byte>, nullable: bool)
    requires ParseHeader(bytes).Some? && ParseHeader(bytes).value.dscale >= 128
    ensures var h := ParseHeader(bytes).value;
            var d := AsI8(h.dscale);
            var r := EntryFor(UnboundColumn(nullable), bytes);
            && (r == Err(Panic) <==> NeedsLargePower(h) || !(-MAX_POW10 <= d <= MAX_POW10))
            && (r == Ok(Decimal(Negate(h.neg, ScaledMagnitude(h, 0)))) <==>
                && !NeedsLargePower(h) && -MAX_POW10 <= d <= MAX_POW10
                && Moved(WrappedValue(h), d) == Negate(h.neg, ScaledMagnitude(h, 0)))
  {
    UnboundEntry(nullable, bytes);
    ValueIsWrapped(ParseHeader(bytes).value);
  }

  /** One that fits in 256 bits is below 1, and is appended as 0 iff what it is moved to
      vanishes. So a value of 1 or more either panics or has wrapped. */
  lemma FittingLongScaleIsCutIff(bytes: seq<byte>, nullable: bool)
    requires ParseHeader(bytes).Some?
    requires var h := ParseHeader(bytes).value; IsDigits(h.digits) && FitsI256(h) && h.dscale >= 128
    ensures var h := ParseHeader(bytes).value;
            var (e, d) := (ScaledMagnitude(h, h.dscale), AsI8(h.dscale));
            && ScaledMagnitude(h, 0) == 0
            && (EntryFor(UnboundColumn(nullable), bytes) == Ok(Decimal(0)) <==>
                -MAX_POW10 <= d <= MAX_POW10
                && if d >= 0 then e < Pow10(d) else Wrap256(Negate(h.neg, e) * Pow10(-d)) == 0)
  {
    var h := ParseHeader(bytes).value;
    var (e, d) := (ScaledMagnitude(h, h.dscale), AsI8(h.dscale));
    LongScaleIsBelowOne(h);
    LongScaleIsCutIff(bytes, nullable);
    I256IsExactIff(h);
    ValueIsWrapped(h);
    ScaledMagnitudeIsRescaled(h, h.dscale);
    HornerNonNegative(h.digits);
    RescaledNonNegative(Horner(h.digits), NaturalScale(h), h.dscale);
    if d >= 0 {
      DivOfNegation(h.neg, e, Pow10(d));
      BelowDivisorIff(e, Pow10(d));
    }
  }

  // ── What the cut loses ───────────────────────────────────────────────────

  lemma {:induction false} HornerBelow(d: seq<int>)
    requires IsDigits(d)
    ensures 0 <= Horner(d) < Pow10(4 * |d|)
    ensures Horner(d) == 0 <==> forall i :: 0 <= i < |d| ==> d[i] == 0
  {
    if d != [] {
      var k := 4 * |d| - 4;
      HornerBelow(d[..|d| - 1]);
      Pow10Adds(k, 4);
      assert Pow10(4) == NBASE;
      assert d == d[..|d| - 1] + [d[|d| - 1]];
    }
  }

  /** The digits before and after position `j`. */
  lemma {:induction false} HornerSplits(d: seq<int>, j: nat)
    requires j <= |d|
    ensures Horner(d) == Horner(d[..j]) * Pow10(4 * (|d| - j)) + Horner(d[j..])
  {
    if j == |d| {
      assert d[..j] == d && d[j..] == [];
    } else {
      var init, last, k := d[..|d| - 1], d[|d| - 1], 4 * (|d| - 1 - j);
      HornerSplits(init, j);
      assert init[..j] == d[..j] && d[j..][..|d| - j - 1] == init[j..] && d[j..][|d| - j - 1] == last;
      Pow10Adds(k, 4);
      assert Pow10(4) == NBASE;
      Regrouped(Horner(d[..j]), Pow10(k), NBASE);
    }
  }

  lemma Regrouped(x: int, p: int, q: int)
    ensures x * p * q == x * (p * q)
  {
  }

  /** The digits that stand for decimals. */
  function Decimals(h: Numeric.Header): seq<int> {
    if h.weight < 0 then h.digits else if h.weight + 1 > |h.digits| then [] else h.digits[h.weight + 1..]
  }

  lemma DecimalsAreRemainder(h: Numeric.Header)
    requires IsDigits(h.digits) && NaturalScale(h) > 0
    ensures Horner(h.digits) >= 0 && Horner(h.digits) % Pow10(NaturalScale(h)) == Horner(Decimals(h))
  {
    var j := if h.weight < 0 then 0 else h.weight + 1;
    var tail := h.digits[j..];
    assert Decimals(h) == tail;
    HornerSplits(h.digits, j);
    HornerBelow(h.digits[..j]);
    HornerBelow(tail);
    HornerBelow(h.digits);
    if h.weight < 0 {
      assert h.digits[..0] == [] && tail == h.digits;
      Pow10Grows(4 * |h.digits|, NaturalScale(h));
      DivRem(Horner(h.digits), 0, Pow10(NaturalScale(h)), Horner(tail));
    } else {
      DivRem(Horner(h.digits), Horner(h.digits[..j]), Pow10(NaturalScale(h)), Horner(tail));
    }
  }

  /** Cutting at the decimal point loses nothing exactly when every decimal digit is zero. */
  lemma NothingIsLostIff(h: Numeric.Header)
    requires IsDigits(h.digits)
    ensures ScaledMagnitude(h, 0) as real == Magnitude(h.digits, h.weight) <==>
            forall i :: 0 <= i < |h.digits| && i > h.weight ==> h.digits[i] == 0
  {
    NothingIsCutIff(h, 0);
    if NaturalScale(h) > 0 {
      DecimalsAreRemainder(h);
      HornerBelow(Decimals(h));
      DecimalDigits(h);
    }
  }

  lemma DecimalDigits(h: Numeric.Header)
    ensures (forall i :: 0 <= i < |Decimals(h)| ==> Decimals(h)[i] == 0) <==>
            forall i :: 0 <= i < |h.digits| && i > h.weight ==> h.digits[i] == 0
  {
    var j := if h.weight < 0 then 0 else h.weight + 1;
    if forall i :: 0 <= i < |Decimals(h)| ==> Decimals(h)[i] == 0 {
      forall i | 0 <= i < |h.digits| && i > h.weight ensures h.digits[i] == 0 {
        assert h.digits[i] == Decimals(h)[i - j];
      }
    }
  }

  /** 10^-256, written with 256 decimals. */
  const TINY := Header([1], -64, 256, false)

  /** Its scale is truncated to 0, and it is appended as 1. */
  lemma TinyIsAppendedAsOne(nullable: bool)
    ensures LongForm(TINY) && IsDigits(TINY.digits) && ParseHeader(Encode(TINY)) == Some(TINY)
    ensures EntryFor(UnboundColumn(nullable), Encode(TINY)) == Ok(Decimal(1))
  {
    OneDigit(-64, 256);
    ValueIsWrapped(TINY);
    UnboundEntry(nullable, Encode(TINY));
    assert Pow10(0) == 1;
  }
}
