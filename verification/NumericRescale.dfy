/** Decoding to the payload's scale and then rescaling to the column's scale. */
module NumericRescale {
  import opened Base
  import opened Numeric
  import opened NumericExact
  import opened NumericWrap
  import opened NumericBound
  import opened Codec
  import opened Builder

  // ── Truncating twice is truncating once ─────────────────────────────────

  /** floor(floor(y) / 10^k) == floor(y / 10^k), for y >= 0. */
  lemma FloorTwice(y: real, k: nat)
    requires y >= 0.0
    ensures Shift(y, 0 - k) >= 0.0
    ensures Shift(y.Floor as real, 0 - k) >= 0.0
    ensures Shift(y.Floor as real, 0 - k).Floor == Shift(y, 0 - k).Floor
  {
    ShiftNonNegative(y, 0 - k);
    ShiftNonNegative(y.Floor as real, 0 - k);
    var z := Shift(y, 0 - k);
    var q := z.Floor;
    ShiftTwice(y, 0 - k, k);
    ShiftTwice(y.Floor as real, 0 - k, k);
    ShiftOfInt(q, k);
    ShiftOfInt(q + 1, k);
    ShiftMonotone(z, q as real, k);
    ShiftMonotone(z, (q + 1) as real, k);
    var low, high := q * Pow10(k), (q + 1) * Pow10(k);
    assert low as real <= y < high as real;
    assert low <= y.Floor < high;
    ShiftMonotone(Shift(y.Floor as real, 0 - k), q as real, k);
    ShiftMonotone(Shift(y.Floor as real, 0 - k), (q + 1) as real, k);
  }

  lemma ShiftNonNegative(y: real, z: int)
    requires y >= 0.0
    ensures Shift(y, z) >= 0.0
  {
    ShiftZero(z);
    ShiftMonotone(y, 0.0, z);
  }

  lemma TruncateTwice(y: real, k: nat)
    ensures Truncate(Shift(Truncate(y) as real, 0 - k)) == Truncate(Shift(y, 0 - k))
  {
    if y >= 0.0 {
      FloorTwice(y, k);
    } else {
      FloorTwice(-y, k);
      ShiftNegates(-y, 0 - k);
      ShiftNegates((-y).Floor as real, 0 - k);
      assert Truncate(y) as real == -((-y).Floor as real);
      TruncateNegates(Shift(-y, 0 - k));
      TruncateNegates(Shift((-y).Floor as real, 0 - k));
    }
  }

  /** The truncation at a coarser scale is the truncation of the truncation. */
  lemma CoarserMagnitude(h: Numeric.Header, d: int, t: int)
    requires t <= d
    ensures ScaledMagnitude(h, t) == TruncDiv(ScaledMagnitude(h, d), Pow10(d - t))
  {
    var y := Shift(Magnitude(h.digits, h.weight), d);
    TruncateTwice(y, d - t);
    ShiftTwice(Magnitude(h.digits, h.weight), d, t - d);
    TruncDivIsTruncate(ScaledMagnitude(h, d), d - t);
  }

  // ── Two-step rescaling ──────────────────────────────────────────────────

  lemma TruncDivMonotone(x: int, y: int, p: nat)
    requires p > 0 && x <= y
    ensures TruncDiv(x, p) <= TruncDiv(y, p)
  {
    if y < 0 {
      DivMonotone(-y, -x, p);
    } else if x >= 0 {
      DivMonotone(x, y, p);
    } else {
      MovedNonNegative(-x, p);
      MovedNonNegative(y, p);
    }
  }

  lemma DivMonotone(x: nat, y: nat, p: nat)
    requires p > 0 && x <= y
    ensures x / p <= y / p
  {
    QuotientBounds(x, p);
    QuotientBounds(y, p);
    if x / p > y / p { TimesMonotone(y / p + 1, x / p, p); }
  }

  /** Clamping before a division loses nothing exactly when the quotient is in range. */
  lemma ClampedQuotientIff(x: int, p: nat)
    requires p > 0
    ensures TruncDiv(Saturate(x), p) == TruncDiv(x, p) <==>
            TruncDiv(I128_MIN, p) <= TruncDiv(x, p) <= TruncDiv(I128_MAX, p)
  {
    if x > I128_MAX {
      TruncDivMonotone(I128_MAX, x, p);
      TruncDivMonotone(I128_MIN, I128_MAX, p);
    } else if x < I128_MIN {
      TruncDivMonotone(x, I128_MIN, p);
      TruncDivMonotone(I128_MIN, I128_MAX, p);
    } else {
      TruncDivMonotone(I128_MIN, x, p);
      TruncDivMonotone(x, I128_MAX, p);
    }
  }

  /** A truncated multiple lies between zero and the number. */
  lemma TruncatedMultiple(y: int, p: nat)
    requires p >= 10
    ensures var x := TruncDiv(y, p);
            && (if y >= 0 then 0 <= x * p <= y else y <= x * p <= 0)
            && (InI128(y) || InI128(-y) ==> InI128(x) && InI128(-x))
  {
    var x := TruncDiv(y, p);
    TruncDivBounds(y, p);
    MovedNonNegative(if y >= 0 then y else -y, p);
    MovedNonNegative(if x >= 0 then x else -x, p);
    TenTimes(if x >= 0 then x else -x, p);
    TimesOfNegation(x < 0, x, p);
  }

  /** Multiplying a truncated number back gives the number iff nothing was cut off, and then
      the clamps do nothing iff the result, signed, is in range. */
  lemma ClampedProductIff(neg: bool, y: int, p: nat)
    requires p >= 10
    ensures var x := TruncDiv(y, p);
            Saturate(Negate(neg, Saturate(x)) * p) == Negate(neg, y) <==> x * p == y && InI128(Negate(neg, y))
  {
    var x := TruncDiv(y, p);
    TruncatedMultiple(y, p);
    TimesOfNegation(neg, x, p);
  }

  function Abs(x: int): nat { if x >= 0 then x else -x }

  lemma TruncDivZeroIff(x: int, p: nat)
    requires p > 0
    ensures TruncDiv(x, p) == 0 <==> Abs(x) < p
  {
    BelowDivisorIff(Abs(x), p);
  }

  lemma BelowDivisorIff(x: nat, p: nat)
    requires p > 0
    ensures x / p == 0 <==> x < p
  {
    QuotientBounds(x, p);
    if x < p && x / p > 0 { TimesMonotone(1, x / p, p); }
  }

  /** Whatever its digits, a value that decodes is far below 10^80 at its own scale. */
  lemma DecodedIsBounded(h: Numeric.Header)
    requires ValueI128(h).Number?
    ensures Abs(ScaledMagnitude(h, h.dscale)) < Pow10(80)
  {
    ScaledMagnitudeIsRescaled(h, h.dscale);
    if h.digits == [] {
      ShiftZero(h.dscale);
    } else {
      FittingParts(h);
      MovedIsBounded(Horner(h.digits), Gap(h));
    }
  }

  lemma FittingParts(h: Numeric.Header)
    requires ValueI128(h).Number? && h.digits != []
    ensures InI128(Horner(h.digits)) && -MAX_POW10 <= Gap(h) <= MAX_POW10
  {
  }

  lemma MovedIsBounded(x: int, g: int)
    requires InI128(x) && g <= MAX_POW10
    ensures Abs(if g >= 0 then x * Pow10(g) else TruncDiv(x, Pow10(-g))) < Pow10(80)
  {
    Pow10At38();
    Pow10Adds(39, 41);
    if g >= 0 {
      Pow10Grows(g, 41);
      ProductBelow(x, Pow10(39), Pow10(g), Pow10(41));
    } else {
      Pow10Grows(39, 80);
      TruncDivShrinks(x, Pow10(-g));
    }
  }

  lemma ProductBelow(x: int, a: nat, p: nat, b: nat)
    requires Abs(x) < a && 0 < p <= b
    ensures Abs(x * p) < a * b
  {
    TimesStrict(Abs(x), a, p);
    TimesMonotone(p, b, a);
    TimesOfNegation(x < 0, Abs(x), p);
  }

  /** A scale of 128 or more is reported at least 256 lower. */
  lemma LongScaleDrops(d: nat)
    requires 128 <= d
    ensures AsI8(d) <= d - 256
  {
  }

  /** At any column scale near the truncated one, such a value is 0 ... */
  lemma LongScaleVanishes(h: Numeric.Header, t: int)
    requires ValueI128(h).Number? && t <= h.dscale - 80
    ensures ScaledMagnitude(h, t) == 0
  {
    DecodedIsBounded(h);
    CoarserMagnitude(h, h.dscale, t);
    Pow10Grows(80, h.dscale - t);
    TruncDivZeroIff(ScaledMagnitude(h, h.dscale), Pow10(h.dscale - t));
  }

  /** ... and rescales to 0 iff it is small enough. */
  lemma RescalesToZeroIff(neg: bool, e: int, a: int, t: int)
    requires -MAX_POW10 <= t - a <= MAX_POW10
    ensures Rescale128(Negate(neg, Saturate(e)), a, t) == Ok(0) <==> if t <= a then Abs(e) < Pow10(a - t) else e == 0
  {
    var v := Negate(neg, Saturate(e));
    if t < a {
      Pow10Fits(a - t);
      TruncDivZeroIff(v, Pow10(a - t));
    } else if t == a {
      assert Pow10(0) == 1;
    } else {
      ZeroProductIff(v, Pow10(t - a));
    }
  }

  lemma ZeroProductIff(x: int, p: nat)
    requires p > 0
    ensures Saturate(x * p) == 0 <==> x == 0
  {
    if x > 0 {
      TimesMonotone(1, x, p);
    } else if x < 0 {
      TimesMonotone(1, -x, p);
      TimesOfNegation(true, -x, p);
    }
  }

  /** Rescaling a decoded value at scale d to a column scale t equals a single truncation of
      the exact value at t, for both signs, exactly when the two scales are at most 38 apart
      and: at a coarser t, the result is what an i128 can be truncated to; at a finer t, the
      value has no nonzero decimal between d and t, and the result is an i128. */
  lemma ShortScaleRescales(h: Numeric.Header, t: int)
    requires ValueI128(h).Number? && -MAX_POW10 <= t - h.dscale <= MAX_POW10
    ensures var (d, e, at) := (h.dscale, ScaledMagnitude(h, h.dscale), ScaledMagnitude(h, t));
            Rescale128(Negate(h.neg, Saturate(e)), d, t) == Ok(Negate(h.neg, at)) <==>
            if t <= d then TruncDiv(I128_MIN, Pow10(d - t)) <= at <= TruncDiv(I128_MAX, Pow10(d - t))
            else e * Pow10(t - d) == at && InI128(Negate(h.neg, at))
  {
    var d := h.dscale;
    if t <= d {
      CoarserMagnitude(h, d, t);
      DivOfNegation(h.neg, Saturate(ScaledMagnitude(h, d)), Pow10(d - t));
      ClampedQuotientIff(ScaledMagnitude(h, d), Pow10(d - t));
      if t == d { assert Pow10(0) == 1; }
    } else {
      CoarserMagnitude(h, t, d);
      Pow10Grows(1, t - d);
      assert Pow10(1) == 10;
      ClampedProductIff(h.neg, ScaledMagnitude(h, t), Pow10(t - d));
    }
  }

  /** When decoding and rescaling from the reported scale `a` to `t` truncates the value once. */
  ghost predicate RescalesExactly(h: Numeric.Header, a: int, t: int) {
    var (e, at) := (ScaledMagnitude(h, h.dscale), ScaledMagnitude(h, t));
    && -MAX_POW10 <= t - a <= MAX_POW10
    && if h.dscale >= 128 then (if t <= a then Abs(e) < Pow10(a - t) else e == 0)
       else if t <= a then TruncDiv(I128_MIN, Pow10(a - t)) <= at <= TruncDiv(I128_MAX, Pow10(a - t))
       else e * Pow10(t - a) == at && InI128(Negate(h.neg, at))
  }

  /** Decoding at dscale and then rescaling to a column scale t, for every payload that
      decodes: a panic exactly when t and the reported scale are more than 38 apart, and
      otherwise a single truncation of the exact value under the conditions above. From 128
      decimals on, where the reported scale is truncated, the value is 0 at t and only a value
      small enough for the truncated scale becomes 0. */
  lemma RescaleIsOneTruncationIff(bytes: seq<byte>, t: int)
    requires ParseHeader(bytes).Some? && DecodedI128(bytes).Number?
    ensures var (h, r) := (ParseHeader(bytes).value, DecodedI128(bytes));
            var w := Rescale128(r.value, r.scale, t);
            && r.scale == AsI8(h.dscale) && (h.dscale < 128 ==> r.scale == h.dscale)
            && (w == Err(Panic) <==> !(-MAX_POW10 <= t - r.scale <= MAX_POW10))
            && (w == Ok(Negate(h.neg, ScaledMagnitude(h, t))) <==> RescalesExactly(h, r.scale, t))
  {
    var (h, r) := (ParseHeader(bytes).value, DecodedI128(bytes));
    NumericIsExact(bytes);
    I8RoundTrip(h.dscale);
    ReportedI128(h);
    if -MAX_POW10 <= t - r.scale <= MAX_POW10 {
      if h.dscale >= 128 {
        LongScaleDrops(h.dscale);
        LongScaleVanishes(h, t);
        RescalesToZeroIff(h.neg, ScaledMagnitude(h, h.dscale), r.scale, t);
      } else {
        ShortScaleRescales(h, t);
      }
    }
  }

  lemma ReportedI128(h: Numeric.Header)
    requires ValueI128(h).Number?
    ensures ValueI128(h).scale == AsI8(h.dscale)
  {
  }

  // ── A column's values end to end ────────────────────────────────────────

  function NumericColumn(p: nat, s: nat, nullable: bool): PgColumn {
    PgColumn(PgTypeId.Numeric, NumericTypmod(p, s), nullable)
  }

  lemma HalfWords(p: nat, s: nat)
    requires s < 0x1_0000
    ensures (p * 0x1_0000 + s) / 0x1_0000 == p && (p * 0x1_0000 + s) % 0x1_0000 == s
  {
  }

  lemma TypmodFields(p: nat, s: nat)
    requires p < 0x8000 && s < 0x1_0000
    ensures NumericTypmodToArrowType(NumericTypmod(p, s)) ==
            if p % 0x100 <= 38 then Decimal128(p % 0x100, AsI8(s)) else Decimal256(p % 0x100, AsI8(s))
  {
    HalfWords(p, s);
    var tm := p * 0x1_0000 + s;
    assert (NumericTypmod(p, s) - 4) % 0x1_0000_0000 == tm;
  }

  /** Every other type modifier: none or zero is the default, and one too small to hold a
      precision wraps. */
  lemma OtherTypmods(typmod: int)
    ensures typmod <= 0 ==> NumericTypmodToArrowType(typmod) == Decimal256(38, 0)
    ensures 0 < typmod < 4 ==> NumericTypmodToArrowType(typmod) == Decimal256(255, typmod - 4)
  {
    if 0 < typmod < 4 {
      assert (typmod - 4) % 0x1_0000_0000 == 0x1_0000_0000 + typmod - 4;
    }
  }

  /** End to end: a value m / 10^s stored in a NUMERIC(p, s) column with p plus slack at
      most 38 is appended to the column's builder as exactly the signed integer m. */
  lemma ColumnValueIsAppended(p: nat, s: nat, nullable: bool, bytes: seq<byte>, m: nat)
    requires 0 < p && p + Slack(s) <= 38 && StoredAs(bytes, p, s, m)
    ensures EntryFor(NumericColumn(p, s, nullable), bytes) == Ok(Decimal(Negate(ParseHeader(bytes).value.neg, m)))
  {
    TypmodFields(p, s);
    ColumnDecodes(bytes, p, s, m);
  }
}
